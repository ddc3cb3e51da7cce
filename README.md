# DocsController README renderer, in Dafny

This project models the `/README.md` endpoint of `DocsController`:

- the choice between serving the Markdown as it is and serving it rendered as an HTML page;
- the line scanner `renderMarkdownToHtml`;
- the inline formatter `escapeInline`;
- both overloads of `escapeHtml`.

The model has six modules:

- `Wrappers`: `Option` stands for Java's `null`, and `Result` for the HTTP error path.
- `JavaText`: the `String` operations the controller relies on, written out:
  - `trim` removes every character up to `' '` at both ends;
  - `replace` of a character or of `"\r\n"`;
  - `split("\n", -1)`, which keeps trailing empty lines;
  - `contains`;
  - an ASCII `toLowerCase`.
- `HtmlEscape`: `escapeHtml`, a chain of `replace` calls (`&` first, then `<`, `>`, and tabs when asked). It is proved equal to an independent reference that escapes each character on its own. This module also proves that null gives `""`, that the output has no angle bracket, that escaping can be undone, and exactly when escaping twice changes nothing.
- `InlineFormat`: `escapeInline`.
  - Each of its four `replaceAll` passes is a left-to-right scanner. A scanner takes the leftmost match, never overlaps two matches, and resumes after the end of each one. The italic look-behind reads the pass's input, so that scanner carries a flag saying whether the previous input character was a star.
  - The module proves what each pass does at a match, away from one, and with nothing to match. It also proves that `escapeInline` never lets `<` or `>` through and keeps every tab.
- `MarkdownBlocks`: what the renderer emits, in two stages.
  - `ParseBlocks` classifies the lines into fenced code, heading, rule, list, blank and paragraph blocks. It tests them in the scanner's order of precedence.
  - `RenderBlocks` turns each block into its HTML fragment.
  - `Body` is the composition of the two.
  - The module proves how the line classifiers exclude one another, and what each kind of line contributes to `Body`.
- `DocsController`: the endpoint itself.
  - `RenderLines` is the scanner, an imperative loop. It has the in-code flag, the code buffer and an inner loop (`GatherList`) that gathers a list and moves the outer index.
  - `RenderLines` is proved to emit exactly `Body` of its lines.
  - `RenderMarkdownToHtml` wraps that body in the fixed page.
  - `Readme` makes the raw-or-HTML decision and raises the not-found error.

In the source, `escapeInline` applies `escapeHtml(x, false)` to the whole substituted text. That includes the `<code>`, `<strong>`, `<em>` and `<a>` tags its own passes just inserted. A line `**bold**` is therefore rendered as the literal text `&lt;strong&gt;bold&lt;/strong&gt;`, not as bold text. The model follows the code. `EscapeInlineEscapesBold` and `EscapeInlineEscapesCode` state this outcome, and `EscapeInlineSafe` states that no raw tag survives.

## Model

| member | source | states |
|---|---|---|
| DocsController.WantsMarkdown | src/main/java/info/bmdb/controller/DocsController.java:46 | Markdown is wanted when raw is true, or when an Accept header is present and its lower-cased text contains "text/markdown" |
| JavaText.NormalizeCrlf | src/main/java/info/bmdb/controller/DocsController.java:83 | replace("\r\n", "\n"): one left-to-right pass that turns each CRLF pair into LF and copies every other character |
| JavaText.SplitLines | src/main/java/info/bmdb/controller/DocsController.java:87 | split("\n", -1): the pieces between newlines, empty pieces included, at least one |
| JavaText.Trim | src/main/java/info/bmdb/controller/DocsController.java:92 | trim(): the text without its leading and trailing characters at most ' ' |
| JavaText.ToLower | src/main/java/info/bmdb/controller/DocsController.java:46 | toLowerCase() on ASCII: same length, each letter A-Z mapped to a-z, every other character kept |
| HtmlEscape.EscapeHtml | src/main/java/info/bmdb/controller/DocsController.java:173-181 | null gives ""; otherwise '&', then '<', then '>' are replaced by their entities, then each tab by four spaces when replaceSpaces is true |
| InlineFormat.CodeSpans | src/main/java/info/bmdb/controller/DocsController.java:163 | the code pass: the leftmost non-overlapping backtick pairs around a non-empty backtick-free text become <code> elements, all else copied |
| InlineFormat.BoldSpans | src/main/java/info/bmdb/controller/DocsController.java:165 | the bold pass: the leftmost non-overlapping ** pairs around a non-empty star-free text become <strong> elements |
| InlineFormat.ItalicSpans | src/main/java/info/bmdb/controller/DocsController.java:167 | the italic pass: the leftmost single stars around a non-empty star-free text, with no star in the input just before or just after, become <em> elements |
| InlineFormat.LinkSpans | src/main/java/info/bmdb/controller/DocsController.java:169 | the link pass: the leftmost [text](url), both parts non-empty, become anchors with href url and target _blank |
| InlineFormat.EscapeInline | src/main/java/info/bmdb/controller/DocsController.java:159-171 | the code, bold, italic and link passes in source order, then escapeHtml(x, false) over the whole substituted text |
| MarkdownBlocks.IsFence | src/main/java/info/bmdb/controller/DocsController.java:92 | the trimmed line starts with three backticks |
| MarkdownBlocks.MatchesHeading | src/main/java/info/bmdb/controller/DocsController.java:107-112 | the line is k hashes, a space, a non-whitespace character, then no line terminator |
| MarkdownBlocks.IsRule | src/main/java/info/bmdb/controller/DocsController.java:115 | the trimmed line is three or more '-' or three or more '=' |
| MarkdownBlocks.IsListItem | src/main/java/info/bmdb/controller/DocsController.java:118 | the trimmed line starts with "- " or "* " |
| MarkdownBlocks.ParseBlocks | src/main/java/info/bmdb/controller/DocsController.java:90-145 | the lines classified in the scanner's precedence: a fence opens a code block up to the next fence or the end; then heading 6 to 1, rule, the maximal list run, blank line, paragraph |
| MarkdownBlocks.RenderBlock | src/main/java/info/bmdb/controller/DocsController.java:97-148 | each block's fragment: the escaped code in <pre><code>, <hk> around the inline-escaped text, <hr/>, <ul> with one entry per run line, a newline, <p> around the inline-escaped line |
| MarkdownBlocks.Body | src/main/java/info/bmdb/controller/DocsController.java:86-149 | the HTML body: the fragments of the classified blocks, in order |
| DocsController.Readme | src/main/java/info/bmdb/controller/DocsController.java:42-57 | no README gives the not-found error; when Markdown is wanted, the body is the loaded text exactly as read (CRLF kept) with type text/markdown; otherwise it is the rendered page of that text with type text/html |
| DocsController.AcceptAnyCase | src/main/java/info/bmdb/controller/DocsController.java:46 | an Accept header that contains text/markdown in any mix of upper and lower case selects the raw Markdown |
| DocsController.DefaultIsHtml | src/main/java/info/bmdb/controller/DocsController.java:38-39 | without raw=true, an absent or empty Accept header (the default value) selects the HTML page |
| DocsController.DocumentLines | src/main/java/info/bmdb/controller/DocsController.java:82-87 | null is read as ""; the lines number one more than the newlines after CRLF normalisation, and joined back with '\n' they give the normalised text |
| DocsController.RenderMarkdownToHtml | src/main/java/info/bmdb/controller/DocsController.java:80-157 | for every input, null included, the result is the fixed page prefix, the body specified by MarkdownBlocks.Body, then "\n</body></html>"; it never fails |
| DocsController.RenderLines | src/main/java/info/bmdb/controller/DocsController.java:88-149 | the loop with the in-code flag and code buffer appends exactly Body(lines); an unclosed fence still emits one code block at the end |
| DocsController.ScanLine | src/main/java/info/bmdb/controller/DocsController.java:106-144 | a step outside a code block on a non-fence line emits the fragment Body prescribes for the lines from i and strictly advances the index |
| DocsController.GatherList | src/main/java/info/bmdb/controller/DocsController.java:118-137 | the inner loop takes the maximal run of item and blank lines: every line before j is one, line j is not (or is the end), and the fragment is <ul>, one entry per line, </ul> |
| DocsController.StepFenceClose | src/main/java/info/bmdb/controller/DocsController.java:92-99 | an opening fence, non-fence lines, then a closing fence emit one <pre><code> block of the escaped buffer, and scanning resumes after the closing fence |
| DocsController.StepFenceUnclosed | src/main/java/info/bmdb/controller/DocsController.java:146-149 | an opening fence with no closing fence emits everything after it as one escaped code block |
| DocsController.CloseFence | src/main/java/info/bmdb/controller/DocsController.java:96-98 | the closing fence emits the buffered code block and the output so far, followed by the body of the lines after it, is the whole body |
| DocsController.StepCodeLine | src/main/java/info/bmdb/controller/DocsController.java:102-104 | inside a code block a line is appended to the buffer verbatim followed by '\n' |
| DocsController.ExtendCode | src/main/java/info/bmdb/controller/DocsController.java:102-105 | a non-fence line inside a code block keeps the buffered run free of fences |
| DocsController.StepHeading | src/main/java/info/bmdb/controller/DocsController.java:107-112 | a level-k heading line at index i emits <hk>, escapeInline of the text after the marker, </hk> |
| DocsController.StepRule | src/main/java/info/bmdb/controller/DocsController.java:115 | a rule line at index i emits <hr/> |
| DocsController.StepBlank | src/main/java/info/bmdb/controller/DocsController.java:140-141 | a blank line at index i emits a bare newline |
| DocsController.StepParagraph | src/main/java/info/bmdb/controller/DocsController.java:142-144 | any other line at index i emits <p>, escapeInline of the untrimmed line, </p> |
| DocsController.StepList | src/main/java/info/bmdb/controller/DocsController.java:118-137 | a list item at i followed by a maximal run ending at j emits the <ul> of the entries of lines i..j, and scanning resumes at j |
| DocsController.ListLine | src/main/java/info/bmdb/controller/DocsController.java:124-132 | a line belongs to the run exactly when its trimmed form is an item or empty; an item contributes <li> of escapeInline(t.substring(2)), a blank line a newline |
| DocsController.ListStep | src/main/java/info/bmdb/controller/DocsController.java:126-129 | taking line j into the list grows the fragment by exactly that line's entry |
| JavaText.TrimEmpty | src/main/java/info/bmdb/controller/DocsController.java:128 | trim() is empty exactly when every character is at most ' ' |
| JavaText.TrimStartDropsTrimmable | src/main/java/info/bmdb/controller/DocsController.java:125 | trim() removes only characters at most ' ' from the front |
| JavaText.TrimEndDropsTrimmable | src/main/java/info/bmdb/controller/DocsController.java:125 | trim() removes only characters at most ' ' from the back |
| JavaText.ContainsToLower | src/main/java/info/bmdb/controller/DocsController.java:46 | lower-casing both sides keeps every occurrence found by contains |
| JavaText.NormalizeCrlfDropsOnlyCr | src/main/java/info/bmdb/controller/DocsController.java:83 | replace("\r\n", "\n") removes only carriage returns, never lengthens the text, and changes nothing without one |
| JavaText.NormalizeCrlfNotIdempotent | src/main/java/info/bmdb/controller/DocsController.java:83 | the normalisation is a single pass: "\r\r\n" becomes "\r\n", which a second pass would change again |
| JavaText.SplitLinesJoin | src/main/java/info/bmdb/controller/DocsController.java:87 | split("\n", -1) loses nothing: joining the pieces with '\n' gives the text back, no piece holds '\n', and there is one more piece than newlines |
| HtmlEscape.EscapeHtmlSafe | src/main/java/info/bmdb/controller/DocsController.java:173-181 | null gives ""; no '<' or '>' survives; with replaceSpaces no tab survives; without it every tab is kept |
| HtmlEscape.EscapeHtmlIsCharwise | src/main/java/info/bmdb/controller/DocsController.java:176-179 | because '&' is replaced first, the replace chain equals escaping each character on its own, tabs becoming four spaces when asked |
| HtmlEscape.EscapeHtmlInvertible | src/main/java/info/bmdb/controller/DocsController.java:176 | without tab widening, decoding &amp;, &lt; and &gt; gives the input back |
| HtmlEscape.EscapeHtmlIdempotentIff | src/main/java/info/bmdb/controller/DocsController.java:176 | escaping twice equals escaping once if and only if the input has no '&', '<' or '>' |
| InlineFormat.CodeSpansCopies | src/main/java/info/bmdb/controller/DocsController.java:163 | the code pass copies text before the first backtick unchanged |
| InlineFormat.CodeSpansMatch | src/main/java/info/bmdb/controller/DocsController.java:163 | the leftmost `t` (t non-empty, no backtick) becomes <code>t</code> and the pass resumes after the closing backtick |
| InlineFormat.CodeSpansLoneBacktick | src/main/java/info/bmdb/controller/DocsController.java:163 | a lone backtick is left as it is |
| InlineFormat.BoldSpansCopies | src/main/java/info/bmdb/controller/DocsController.java:165 | the bold pass copies text before the first star unchanged |
| InlineFormat.BoldSpansMatch | src/main/java/info/bmdb/controller/DocsController.java:165 | the leftmost **t** (t non-empty, no star) becomes <strong>t</strong> and the pass resumes after it |
| InlineFormat.ItalicSpansCopies | src/main/java/info/bmdb/controller/DocsController.java:167 | the italic pass copies text without a star, after which the look-behind sees a non-star |
| InlineFormat.ItalicSpansMatch | src/main/java/info/bmdb/controller/DocsController.java:167 | the leftmost *t* with no star just before or just after becomes <em>t</em>, and the look-behind then sees the consumed star |
| InlineFormat.LinkSpansCopies | src/main/java/info/bmdb/controller/DocsController.java:169 | the link pass copies text before the first '[' unchanged |
| InlineFormat.LinkSpansMatch | src/main/java/info/bmdb/controller/DocsController.java:169 | the leftmost [t](u) becomes an anchor with href u and target _blank around t, and the pass resumes after the ')' |
| InlineFormat.LinkSpansUnclosed | src/main/java/info/bmdb/controller/DocsController.java:169 | without a ']' the link pass changes nothing |
| InlineFormat.CodeSpansKeepsTabs | src/main/java/info/bmdb/controller/DocsController.java:163 | the code pass keeps the number of tabs |
| InlineFormat.BoldSpansKeepsTabs | src/main/java/info/bmdb/controller/DocsController.java:165 | the bold pass keeps the number of tabs |
| InlineFormat.ItalicSpansKeepsTabs | src/main/java/info/bmdb/controller/DocsController.java:167 | the italic pass keeps the number of tabs |
| InlineFormat.LinkSpansKeepsTabs | src/main/java/info/bmdb/controller/DocsController.java:169 | the link pass keeps the number of tabs |
| InlineFormat.EscapeInlineSafe | src/main/java/info/bmdb/controller/DocsController.java:159-171 | escapeInline never lets a '<' or '>' through, not even in the tags its passes insert, and keeps every tab |
| InlineFormat.EscapeInlinePlain | src/main/java/info/bmdb/controller/DocsController.java:159-171 | text with no backtick, star or '[' is only entity-escaped |
| InlineFormat.EscapeInlineEscapesBold | src/main/java/info/bmdb/controller/DocsController.java:165-170 | **t** comes out as &lt;strong&gt;, t escaped, &lt;/strong&gt;: the inserted tag is escaped by the final pass |
| InlineFormat.EscapeInlineEscapesCode | src/main/java/info/bmdb/controller/DocsController.java:163-170 | `t` comes out as &lt;code&gt;, t escaped, &lt;/code&gt; |
| MarkdownBlocks.HeadingLevel | src/main/java/info/bmdb/controller/DocsController.java:107-112 | a reported level is one whose pattern (k hashes, a space, a non-space, no line terminator after) the line matches |
| MarkdownBlocks.HeadingLevelExact | src/main/java/info/bmdb/controller/DocsController.java:107-112 | a line matches the level-k pattern if and only if HeadingLevel reports k, so None means no pattern matches |
| MarkdownBlocks.HeadingUnique | src/main/java/info/bmdb/controller/DocsController.java:107-112 | at most one of the six heading patterns matches a line |
| MarkdownBlocks.HeadingNotFence | src/main/java/info/bmdb/controller/DocsController.java:92-112 | a heading line is never a fence |
| MarkdownBlocks.RuleIsOnlyRule | src/main/java/info/bmdb/controller/DocsController.java:115 | a rule line is neither a fence nor a heading |
| MarkdownBlocks.ListItemIsOnlyListItem | src/main/java/info/bmdb/controller/DocsController.java:118 | a list item line is neither a fence, a heading nor a rule |
| MarkdownBlocks.BlankIsOnlyBlank | src/main/java/info/bmdb/controller/DocsController.java:140 | a blank line is neither a fence, a heading, a rule nor a list item |
| MarkdownBlocks.FirstWhereFirst | src/main/java/info/bmdb/controller/DocsController.java:90-101 | the code block ends at the first fence after the opening one: no line before it is a fence |
| MarkdownBlocks.PrefixWhereMaximal | src/main/java/info/bmdb/controller/DocsController.java:123-133 | the gathered list run is maximal: every line in it is an item or blank, and the next line is neither |
| MarkdownBlocks.NoFenceMeans | src/main/java/info/bmdb/controller/DocsController.java:92-104 | the buffered lines hold no fence, stated line by line |
| MarkdownBlocks.BodyHeading | src/main/java/info/bmdb/controller/DocsController.java:107-112 | a heading line renders as <hk> around escapeInline(line.substring(k + 1)), then the rest |
| MarkdownBlocks.BodyHashParagraph | src/main/java/info/bmdb/controller/DocsController.java:107-144 | hashes with no space and visible character after them, or seven or more hashes, fall through to a paragraph |
| MarkdownBlocks.BodyRule | src/main/java/info/bmdb/controller/DocsController.java:115 | a trimmed ---+ or ===+ line renders as <hr/> |
| MarkdownBlocks.BodyBlank | src/main/java/info/bmdb/controller/DocsController.java:140-141 | a blank line outside a list renders as a bare newline |
| MarkdownBlocks.BodyFenceClosed | src/main/java/info/bmdb/controller/DocsController.java:92-104 | the lines between two fences render as one escaped code block, each followed by '\n'; the fence lines emit nothing themselves |
| MarkdownBlocks.BodyFenceUnclosed | src/main/java/info/bmdb/controller/DocsController.java:146-149 | an unclosed fence renders everything after it as one escaped code block |
| MarkdownBlocks.BodyList | src/main/java/info/bmdb/controller/DocsController.java:118-137 | a list item starts one <ul> holding an <li> per item line and a newline per blank line of the maximal run, after which scanning resumes |
| MarkdownBlocks.BodyParagraph | src/main/java/info/bmdb/controller/DocsController.java:142-144 | any other non-blank line becomes <p> around escapeInline of the whole untrimmed line |
| MarkdownBlocks.BodyWordLine | src/main/java/info/bmdb/controller/DocsController.java:142-144 | a line starting with a letter or digit is a paragraph |

## Left out

- `loadReadmeMarkdown` (filesystem, then classpath) is not part of this model: `Readme` takes what it would return, `None` standing for `null`.
- `ResponseEntity`, `HttpHeaders` and `ResponseStatusException` are HTTP framework plumbing. `Readme` returns the content type and body, or the 404 error with its message. The `charset=UTF-8` parameter of both media types is left out.
- The CSS and HTML template of the page is carried as the constants `PagePrefix` and `PageSuffix`. Its text is copied, but nothing is proved about it.
- DocsController.WantsMarkdown: lower-cases only `A`-`Z`. Java's `toLowerCase` also maps other letters, for example the Kelvin sign to `k`. The model can therefore miss an Accept header that Java would match.
- Strings are sequences of Unicode characters, not UTF-16 code units. Indices such as `substring(k + 1)` agree with Java on all text, because the characters before them are ASCII. What the regex `.` excludes is modelled as Java's line terminators.
- Each `StringBuilder` is a string that the methods reassign. The source's `i = j - 1; continue` followed by `i++` is modelled as resuming at `j` directly.
- ChatController, ChatService, PromptLogService and DateTimeTools are not part of this model. They are HTTP endpoints, a call into an external chat client, file I/O under a lock, and the system clock.
