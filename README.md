# A verified model of the chat page's message formatter

The chat page of this repository renders every bot message with
`formatContent`, a string-to-string pipeline of regular-expression passes:

1. fenced code spans are cut out into a table and replaced by markers `ESC CODE<k> ESC`;
2. math spans (`$$…$$` tried before `$…$`) are cut out into a second table, with markers `ESC LATEX<k> ESC`;
3. `&`, `<` and `>` are HTML-escaped, in that order;
4. four emphasis substitutions run: bold, italic, then the two bold-italic rules;
5. code markers become `<pre><code>…</code></pre>`;
6. math markers become `math-display` or `math-inline` containers, with the delimiters stripped;
7. an exception becomes an error fragment.

Around the formatter sit:

- the send button's `isSending` guard;
- the choice of the text a backend reply shows;
- the Enter-without-Shift key binding.

This project models all of these in Dafny and proves what they do.

Each regular-expression pass is a left-to-right scanner. The scanners keep the details of JavaScript:

- lazy groups find the first closer (`Text.FindCloser`);
- `.` stops at line terminators, while `[\s\S]` does not;
- alternation order is kept;
- the back-reference `\1` becomes "the closer is the opener";
- a marker's digits are a greedy `\d+`;
- array lookup with the captured digit string succeeds only for a canonical index, so `"007"` is not `7`;
- a lookup that misses reads `undefined`. For a code marker that prints as the word `undefined`. For a math marker it throws from `startsWith`, and the exception is caught.

Modules:

- `Text`: character classes, `trim`, decimal numerals and the lazy scan.
- `Escape`: the escape chain.
- `Extract`: the two extraction passes, as functions and as loop methods that fill the tables.
- `Markdown`: the emphasis rules.
- `Restore`: the two restoration passes.
- `Formatter`: the whole pipeline and its end-to-end properties.
- `Response`: the reply text.
- `Chat`: the controller class.

The pipeline is `Formatter.Formatted(text, rev)`. `rev == Shipped` runs the passes exactly as the source does. `rev == Repaired` applies the two corrections listed under Findings. The chat controller's `revision` is `Shipped`, as the page loads it, and it shows bot messages through that revision. The end-to-end properties are stated for both revisions wherever both satisfy them. A lemma named for one revision, or for one rule order, states where the two differ.

### Definitions

These functions define the passes. Their meaning is stated by the lemmas in the table below.

- `Text.Trim` models `trim` (frontend/script.js:18). `Text.Decimal` models the marker's `${…}` numeral (19, 25).
- `Escape.ReplaceAll` is one global replacement of a character. `Escape.EscapeChain` is the three of them (29-32). `Escape.EscapeHtml` is the one-pass reference escape.
- `Extract.CodeMatch` and `Extract.CodePieces` model `/```([\s\S]*?)```/g` cutting the text into spans and plain characters (17).
- `Extract.MathMatch` and `Extract.MathPieces` do the same for `/(\$\$[\s\S]*?\$\$|\$.*?\$)/g` (23).
- `Extract.Marker`, `Extract.Marked` and `Extract.Blocks` model the replacement text and the pushed table (19, 25). `Extract.ExtractCode` and `Extract.ExtractMath` are the loops that fill the tables.
- `Markdown.AltMatch`, `Markdown.ApplyRule` and `Markdown.Emphasis` model the emphasis chain (35-42). `BOLD`, `ITALIC`, `BOLD_ITALIC` and `BOLD_ITALIC_MIXED` are its four regular expressions (37, 39, 41, 42).
- `Restore.MarkerMatch` and `Restore.ArrayIndex` model the regex match of a marker and the lookup of its digits (45, 46, 51, 52).
- `Restore.RestoreCode` and `Restore.CodeHtml` model the code pass (45-48). `Restore.RestoreCodeKeepingMath` is its corrected form. `Restore.Token` and `Restore.Spelled` describe text in which characters, code markers and math markers are interleaved, and `Restore.CodeRestored` is what the code pass is meant to make of it.
- `Restore.RestoreMath`, `Restore.MathHtml` and `Restore.JsSlice` model the math pass (51-56).
- `Formatter.Formatted` and `Formatter.ErrorFragment` model `formatContent` with its `catch` (8-63). `Formatter.FormatContent` is the step-by-step method. `Formatter.ProseAndCode` is the reference rendering of prose between code blocks: each prose character escaped, each block verbatim.
- `Response.Member`, `Response.StringResponse`, `Response.Data` and `Response.ResponseContent` model the choice of the reply text (155-161). `Chat.ReplyText` adds the network error (163-166).
- `Chat.IsSendKey` is the key test of the keypress listener (196).

## Model

| member | source | states |
|---|---|---|
| Text.TrimIsInfix | frontend/script.js:18 | trim returns an infix of its input with only JavaScript white space cut off before and after it, and with a non-space at each end |
| Text.TrimOfInfix | frontend/script.js:18 | any infix with only white space outside it and a non-space at each end is what trim returns, so trim's result is unique |
| Text.TrimIdempotent | frontend/script.js:18 | trimming a trimmed string changes nothing |
| Text.DecimalIsCanonical | frontend/script.js:19 | the numeral written into a marker is a canonical array index whose value is the index itself |
| Text.CanonicalIsDecimal | frontend/script.js:46 | a canonical index string is the numeral of its value, so no other digit string names the same array element |
| Text.FindCloser | frontend/script.js:17 | a lazy group stops at the first position where a closer occurs; a group built on `.` crosses no line terminator; when nothing is found, every closer lies beyond a line break |
| Text.FindsClosingDelimiter | frontend/script.js:37 | after an opener, the lazy scan finds the closer that immediately follows a body which cannot close early |
| Escape.EscapeChainIsEscapeHtml | frontend/script.js:29-32 | the three global replacements, `&` first, are the single-pass HTML escape |
| Escape.AmpersandLastDoubleEscapes | frontend/script.js:29-32 | escaping `&` after `<` instead would turn `<` into `&amp;lt;` |
| Escape.EscapeHtmlChars | frontend/script.js:29-32 | no `<` or `>` survives escaping; every output character comes from the input or from an entity |
| Escape.UnescapeEscapeHtml | frontend/script.js:29-32 | escaping loses nothing: decoding the entities gives the input back |
| Extract.CodeMatchIsLazy | frontend/script.js:17 | a code match is fence, body, fence, with no fence inside the body; no match means no opening fence or no closing fence |
| Extract.CodeStep | frontend/script.js:17-19 | at the start of the rest, a fenced span is one piece: its trimmed body is pushed and it is replaced by the marker numbered by the table's length before the push; any other character is a piece copied as it is |
| Extract.ExtractCode | frontend/script.js:13-20 | the loop's marked text and table are the marked pieces and the trimmed code bodies, in order |
| Extract.MathMatchDisplay | frontend/script.js:23 | `$$x$$` is matched whole by the display alternative |
| Extract.MathMatchInline | frontend/script.js:23 | `$x$`, with x one line and free of `$`, is matched whole by the inline alternative |
| Extract.MathStep | frontend/script.js:23-25 | at the start of the rest, a math span is one piece: it is pushed whole and replaced by the marker numbered by the table's length before the push; any other character is a piece copied as it is |
| Extract.ExtractMath | frontend/script.js:22-26 | the loop's marked text and table are the marked pieces and the whole matched spans, in order |
| Extract.InlineMathStaysOnOneLine | frontend/script.js:23 | `$x$` with a line break in x is not a math span |
| Extract.CodePiecesWithoutFence | frontend/script.js:17 | text without a fence is left as plain characters |
| Extract.MathPiecesWithoutDollar | frontend/script.js:23 | text without `$` is left as plain characters |
| Extract.MarkedPlains | frontend/script.js:17-26 | plain text is marked as itself and adds no table entry |
| Extract.MarkedConcat | frontend/script.js:17-26 | marking two runs of pieces one after the other numbers the second run's markers on from the number of spans in the first |
| Extract.BlocksConcat | frontend/script.js:17-26 | the table of two runs of pieces is the first run's table followed by the second's |
| Markdown.AltMatchIsFirst | frontend/script.js:37-42 | there is no match exactly when no alternative reaches a closer on this line; otherwise the match takes the first alternative that does, its group ends at the first closer position, and the match ends after the first of its closers found there |
| Markdown.ApplyRuleUnreached | frontend/script.js:37-42 | a rule none of whose alternatives reaches a closer from any position of the text leaves the text unchanged |
| Markdown.EmphasisInert | frontend/script.js:35-42 | text without `*` or `_` passes the emphasis chain unchanged, in either rule order |
| Markdown.ApplyRuleWrapsFirst | frontend/script.js:37-42 | a rule whose first opener encloses a body that cannot close early wraps that body in the rule's tags |
| Markdown.BoldWraps | frontend/script.js:35-42 | in either rule order, `**a**` becomes `<strong>a</strong>` when a has no mark and no line break |
| Markdown.ItalicWraps | frontend/script.js:35-42 | in either rule order, `*a*` becomes `<em>a</em>` when a has no mark and no line break |
| Markdown.TripleAsWritten | frontend/script.js:35-42 | in the source's order, `***x***` becomes `<strong><em>x</strong></em>` |
| Markdown.TripleBoldItalicFirst | frontend/script.js:40-42 | with the bold-italic rules first, `***x***` becomes `<strong><em>x</em></strong>` |
| Restore.MarkerMatchExactly | frontend/script.js:45 | the marker regex matches at the start of the text, capturing d, exactly when the text starts with ESC, the tag, a non-empty digit run d, and ESC |
| Restore.ArrayIndexNames | frontend/script.js:46 | a digit string finds entry x exactly when it is the decimal numeral of an index below the table's length that holds x |
| Restore.JsSlice | frontend/script.js:54-55 | `slice(start, -end)` is the infix between the two cuts, or empty when they cross |
| Restore.RestoreCodeMarker | frontend/script.js:45-47 | code marker k becomes code block k, or `undefined` when the table has no entry k |
| Restore.RestoreCodeKeepsMathMarker | frontend/script.js:45 | the code pass leaves a math marker whole unless `C` follows it |
| Restore.MathMarkerCollision | frontend/script.js:45-47 | as written, a math marker followed by `CODE<j>ESC` loses its closing ESC to a code marker |
| Restore.KeepingMathNoCollision | frontend/script.js:45-47 | corrected, the same text keeps the math marker whole |
| Restore.KeepingMathCodeMarker | frontend/script.js:45-47 | corrected, code marker k still becomes code block k, or `undefined` |
| Restore.KeepingMathRestoresEveryCodeMarker | frontend/script.js:45-56 | corrected, for any interleaving of characters other than ESC with code and math markers, every code marker k becomes code block k (or `undefined`) and every math marker stays whole for the math pass |
| Restore.RestoreMathMarker | frontend/script.js:51-56 | math marker k becomes the container of span k; with no entry k the pass throws the TypeError of `undefined.startsWith` |
| Restore.MathHtmlForms | frontend/script.js:53-55 | `$$x$$` gives a display container of x; `$x$` gives an inline container of x |
| Restore.RestoreCodeRoundTrip | frontend/script.js:45-48 | restoring marked pieces with their own table puts code span k back at marker k, in order |
| Restore.RestoreMathRoundTrip | frontend/script.js:51-56 | restoring marked pieces with their own table puts math span k back at marker k, and does not throw |
| Restore.RestoreMathBrokenMarker | frontend/script.js:51 | an ESC that only looks like the start of a math marker is copied, and the scan goes on after it |
| Formatter.FormatContent | frontend/script.js:8-63 | the step-by-step pipeline computes the formatter's result for every string |
| Formatter.PlainTextIsEscaped | frontend/script.js:29-58 | text without a fence, `$`, marks or ESC comes out HTML-escaped, with no `<` or `>` left |
| Formatter.LessThanOnce | frontend/script.js:29-32 | `<` renders as `&lt;` and not `&amp;lt;` |
| Formatter.MarkerPassesUntouched | frontend/script.js:17-42 | a marker written by the user passes extraction, escaping and emphasis unchanged |
| Formatter.CodeBlockRoundTrip | frontend/script.js:17-47 | a fenced block renders as `<pre><code>` plus its trimmed body plus `</code></pre>`; the body is not escaped |
| Formatter.ProseWithCodeBlocks | frontend/script.js:8-63 | in either revision, prose without `$`, `*`, `_` or ESC mixed with any number of ESC-free code blocks renders as the prose HTML-escaped with each block, in order, verbatim in its `<pre><code>` container at its place |
| Formatter.UnknownCodeMarker | frontend/script.js:45-47 | a code marker with no block renders as `<pre><code>undefined</code></pre>` |
| Formatter.DisplayMathRoundTrip | frontend/script.js:23-55 | `$$x$$` renders as a display container of x, unescaped |
| Formatter.InlineMathRoundTrip | frontend/script.js:23-55 | `$x$` renders as an inline container of x, unescaped |
| Formatter.LoneDoubleDollar | frontend/script.js:23-55 | `$$` alone is matched by the inline alternative and restored as an empty display container |
| Formatter.InlineMathNotAcrossLines | frontend/script.js:23 | `$x$` with a line break in x is left as text and escaped |
| Formatter.UnknownMathMarker | frontend/script.js:51-61 | a math marker with no span makes formatContent return the error fragment with the TypeError's message |
| Formatter.BoldRendered | frontend/script.js:29-42 | in either revision, `**a**` renders as `<strong>` plus escaped a plus `</strong>` |
| Formatter.ItalicRendered | frontend/script.js:29-42 | in either revision, `*a*` renders as `<em>` plus escaped a plus `</em>` |
| Formatter.TripleRenderedShipped | frontend/script.js:35-42 | as written, `***x***` renders with crossed tags |
| Formatter.TripleRenderedRepaired | frontend/script.js:35-42 | corrected, `***x***` renders with nested tags |
| Formatter.CollisionShipped | frontend/script.js:45-56 | as written, `$x$CODE0` followed by a code block renders a broken math marker around the code block |
| Formatter.CollisionRepaired | frontend/script.js:45-56 | corrected, the same input renders the inline container, the text `CODE0`, then the code block |
| Response.Member | frontend/script.js:155 | a parsed object's member is found exactly when one has that key, and it is the last such member |
| Response.VerbatimResponse | frontend/script.js:159-160 | a string `response` member that no later member overrides is shown verbatim |
| Response.PrintedWhole | frontend/script.js:159-161 | a body that is not an object, or whose `response` is missing or not a string, is printed whole |
| Response.UnparsableShowsError | frontend/script.js:155-157 | an unparsable reply shows the printed `{error: 'Invalid JSON response'}` |
| Response.ShownTextOrigin | frontend/script.js:159-161 | any text other than the printed data is the string `response` member of a parsed object |
| Chat.NetworkErrorText | frontend/script.js:155-166 | a failed request shows `Error: ` and the message; an unparsable reply shows the printed error object, whatever stringify prints for it |
| Chat.ProseShownAsIs | frontend/script.js:8-63 | any text of letters, spaces, `!` and `?` renders as itself, in either revision |
| Chat.GreetingShownAsIs | frontend/script.js:203 | the greeting renders as itself, in either revision |
| Chat.Controller.constructor | frontend/script.js:202-204 | the page starts idle, with an empty input, no requests and the greeting shown, formatting through the shipped formatContent |
| Chat.Controller.AppendUserMessage | frontend/script.js:107-108 | the user's text is appended as it is |
| Chat.Controller.AppendBotMessage | frontend/script.js:78-80 | a bot's text is appended as the HTML of formatContent as written |
| Chat.Controller.Type | frontend/script.js:176 | editing the input field changes only the input |
| Chat.Controller.Click | frontend/script.js:172-186 | while sending, nothing changes; input that trims to nothing leaves the flag down and everything else as it was; otherwise the input is cleared, the trimmed message is appended as typed and sent as exactly one request, and the controller waits; at most one request is ever outstanding |
| Chat.Controller.Complete | frontend/script.js:186-192 | the outstanding request completes, its reply text is appended as the HTML of formatContent as written, and the flag is down again, whether the request succeeded or failed |
| Chat.Controller.KeyPress | frontend/script.js:195-200 | a send key is prevented and acts exactly as a click; any other key changes nothing |

## Left out

- DOM work is not modelled: elements, `innerHTML`, scrolling and timestamps. `appendMessage` is kept only as the bubble it adds.
- KaTeX rendering, `hljs.highlightAll` and the copy buttons are not modelled. They are foreign libraries and browser APIs. The "Display error" fallback of `appendMessage` exists only for their exceptions.
- `fetch` and the asynchronous transport are not modelled: a request completes when `Complete` is called with its reply.
- `JSON.stringify` is not modelled. It is a parameter of `ResponseContent`, so every property holds for any printer.
- The formatter's conversion of non-string content at frontend/script.js:10 is not modelled: only string content is modelled.
- `console.error` logging is not modelled.
- The click listener's own `catch` (frontend/script.js:187-189) is not modelled, because it cannot run: `sendMessage` catches every failure itself.
- `backend/main.py` is not part of this model.
- Strings are sequences of Unicode code points, not UTF-16 code units. Text with surrogate pairs may therefore differ in how `.` and `slice` count.
- The JSON model has integers only; real-number values are not modelled.
- The TypeError message of `undefined.startsWith` is V8's wording, as in Chrome and Node. Firefox and Safari word it differently, so the error fragment of `Formatter.UnknownMathMarker` is the one V8 gives.
- Restore.JsSlice: models `slice(start, -cutEnd)` only for positive cutEnd, the only kind the math callback passes. `slice(start, -0)` is the empty string, and that case is excluded.

## Findings

| source | as written | input that shows it | evidently intended | confidence | as-written member | corrected member |
|---|---|---|---|---|---|---|
| frontend/script.js:37-42 | the bold rule runs first and takes `**` of `***x***`, the italic rule then pairs the two leftover `*` across `</strong>` | `***x***` gives `<strong><em>x</strong></em>` | the comment's bold-italic form `<strong><em>x</em></strong>`, with the bold-italic rules run first | high, not executed | Markdown.TripleAsWritten | Markdown.TripleBoldItalicFirst |
| frontend/script.js:45-56 | a math marker's closing ESC can open a code marker when the user's text spells `CODE0` followed by a code block | `$x$CODE0` followed by a fenced block, with y as the block's body | the inline container of x, then `CODE0`, then the code block | medium, not executed | Formatter.CollisionShipped | Formatter.CollisionRepaired |

- **First finding.** As written, `***x***` renders as `<strong><em>x</strong></em>`, which is mis-nested HTML. The corrected emphasis order, `Markdown.EmphasisOrder.BoldItalicFirst`, runs the two bold-italic rules before bold and italic.
- **Second finding.** As written, the page shows a stray ESC, the text `LATEX0`, the code block, `CODE0` and a stray ESC, and the math span is lost. The corrected code pass, `Restore.RestoreCodeKeepingMath`, steps over a whole math marker before it looks for a code marker. `Restore.KeepingMathRestoresEveryCodeMarker` states the correction in general: with code and math markers interleaved in any order, every code marker gets its block and every math marker is left whole.

`Formatter.Formatted` takes the revision as a parameter. The chat controller's `revision` field is `Shipped`, as the page loads it. `Repaired` applies both corrections.
