/**
 * The README endpoint of DocsController: the choice between the raw Markdown
 * and the rendered page, and the line scanner renderMarkdownToHtml, proved to
 * emit exactly the page that MarkdownBlocks.Body specifies.
 */
module DocsController {
  import opened Wrappers
  import opened JavaText
  import opened HtmlEscape
  import opened InlineFormat
  import opened MarkdownBlocks

  /** Everything the page has before the rendered body. */
  const PagePrefix: string :=
    "<!DOCTYPE html>\n" +
    "<html lang=\"fr\">\n<head>\n<meta charset=\"UTF-8\"/>\n<title>README.md</title>\n" +
    "<style>body{font-family:ui-sans-serif,system-ui,-apple-system,Segoe UI,Roboto,Ubuntu,Cantarell,Noto Sans,Helvetica Neue,Arial;line-height:1.6;padding:24px;max-width:900px;margin:auto;background:#0f172a;color:#e5e7eb;}" +
    "a{color:#93c5fd;} code,pre{font-family:ui-monospace, SFMono-Regular, Menlo, Monaco, Consolas, \\\"Liberation Mono\\\", monospace;} pre{background:#0a0f1a;border:1px solid #0f1a2b;padding:12px;border-radius:8px;overflow:auto;} h1,h2,h3{color:#bfdbfe;} hr{border:0;border-top:1px solid #1f2937;margin:24px 0;} table{border-collapse: collapse;} th,td{border:1px solid #1f2937;padding:6px 10px;} p{margin:10px 0;} </style>\n" +
    "</head><body>\n"

  /** Everything the page has after the rendered body. */
  const PageSuffix: string := "\n</body></html>"

  /** The lines the scanner walks: null becomes "", CRLF becomes LF, then split on every LF. */
  function DocumentLines(markdown: Option<string>): (lines: seq<string>)
    ensures |lines| == Count(NormalizeCrlf(markdown.GetOr("")), '\n') + 1
    ensures JoinLines(lines) == NormalizeCrlf(markdown.GetOr(""))
  {
    SplitLinesJoin(NormalizeCrlf(markdown.GetOr("")));
    SplitLines(NormalizeCrlf(markdown.GetOr("")))
  }

  /** The two media types the endpoint answers with. */
  datatype MediaType = TextMarkdown | TextHtml

  /** A 200 response: its Content-Type and its body. */
  datatype Response = Response(contentType: MediaType, body: string)

  /** The ResponseStatusException raised when README.md cannot be loaded. */
  datatype HttpError = NotFound(reason: string)

  const NotFoundReason: string := "README.md introuvable côté serveur"

  /**
   * The raw/HTML decision of readme: the raw query parameter, or an Accept
   * header (null when absent) whose lower-cased text contains "text/markdown".
   */
  predicate WantsMarkdown(raw: bool, accept: Option<string>) {
    raw || (accept.Some? && Contains(ToLower(accept.value), "text/markdown"))
  }

  /** Accept is matched case-insensitively: any spelling of text/markdown selects the raw Markdown. */
  lemma AcceptAnyCase(raw: bool, accept: string, spelling: string)
    requires ToLower(spelling) == "text/markdown" && Contains(accept, spelling)
    ensures WantsMarkdown(raw, Some(accept))
  {
    ContainsToLower(accept, spelling);
  }

  /** Without raw=true, an absent or empty Accept header (the default) selects the HTML page. */
  lemma DefaultIsHtml(accept: Option<string>)
    requires accept == None || accept == Some("")
    ensures !WantsMarkdown(false, accept)
  {
    if accept.Some? {
      assert ToLower("") == "";
      assert !StartsWith("", "text/markdown");
    }
  }

  /**
   * readme, given what loadReadmeMarkdown returned (None for null): 404 when
   * there is no README, the Markdown exactly as loaded when it is wanted,
   * the rendered page otherwise.
   */
  method Readme(md: Option<string>, raw: bool, accept: Option<string>) returns (r: Result<Response, HttpError>)
    ensures md.None? ==> r == Failure(NotFound(NotFoundReason))
    ensures md.Some? && WantsMarkdown(raw, accept) ==> r == Success(Response(TextMarkdown, md.value))
    ensures md.Some? && !WantsMarkdown(raw, accept) ==>
      r == Success(Response(TextHtml, PagePrefix + Body(DocumentLines(md)) + PageSuffix))
  {
    hide *;
    if md.None? {
      return Failure(NotFound(NotFoundReason));
    }
    if WantsMarkdown(raw, accept) {
      return Success(Response(TextMarkdown, md.value));
    }
    var htmlBody := RenderMarkdownToHtml(md);
    r := Success(Response(TextHtml, htmlBody));
  }

  // ---- One step of the scanner, stated at index i of the lines ----

  /** Emitting a fragment keeps "emitted + body of the rest == whole body". */
  lemma {:induction false} Emit(html: string, fragment: string, rest: string, body: string)
    requires html + (fragment + rest) == body
    ensures (html + fragment) + rest == body
  {
    assert (html + fragment) + rest == html + (fragment + rest);
  }


  lemma {:induction false} StepFenceClose(lines: seq<string>, open: nat, i: nat)
    requires open < i < |lines| && IsFence(lines[open]) && IsFence(lines[i])
    requires NoFence(lines[open + 1..i])
    ensures Body(lines[open..]) == "<pre><code>" + EscapeHtml(Some(CodeText(lines[open + 1..i])), true) + "</code></pre>\n" + Body(lines[i + 1..])
  {
    var sub, n := lines[open..], i - open;
    NoFenceMeans(lines[open + 1..i]);
    forall k | 1 <= k < n ensures !IsFence(sub[k]) {
      assert sub[k] == lines[open + 1..i][k - 1];
    }
    assert sub[n] == lines[i];
    assert sub[1..n] == lines[open + 1..i];
    assert sub[n + 1..] == lines[i + 1..];
    BodyFenceClosed(sub, n);
  }

  lemma {:induction false} StepFenceUnclosed(lines: seq<string>, open: nat, end: nat)
    requires open < end == |lines| && IsFence(lines[open])
    requires NoFence(lines[open + 1..end])
    ensures Body(lines[open..]) == "<pre><code>" + EscapeHtml(Some(CodeText(lines[open + 1..end])), true) + "</code></pre>\n"
  {
    assert lines[open + 1..end] == lines[open + 1..];
    var sub := lines[open..];
    NoFenceMeans(lines[open + 1..end]);
    forall k | 1 <= k < |sub| ensures !IsFence(sub[k]) {
      assert sub[k] == lines[open + 1..end][k - 1];
    }
    assert sub[1..] == lines[open + 1..];
    BodyFenceUnclosed(sub);
  }

  /** An opening fence at i starts an empty buffer. */
  lemma OpenFence(lines: seq<string>, i: nat)
    requires i < |lines|
    ensures CodeText(lines[i + 1..i + 1]) == "" && NoFence(lines[i + 1..i + 1])
  {
    assert lines[i + 1..i + 1] == [];
  }

  /** A line that is not a fence extends the run of non-fence lines after the opening fence. */
  lemma ExtendCode(lines: seq<string>, open: nat, i: nat)
    requires open < i < |lines| && !IsFence(lines[i])
    requires NoFence(lines[open + 1..i])
    ensures NoFence(lines[open + 1..i + 1])
  {
    var run := lines[open + 1..i + 1];
    assert run[..|run| - 1] == lines[open + 1..i];
  }

  /** The closing fence at i emits the buffered code block and ends the pending block. */
  lemma CloseFence(lines: seq<string>, open: nat, i: nat, codeBuf: string, html: string, body: string)
    requires open < i < |lines| && IsFence(lines[open]) && IsFence(lines[i])
    requires NoFence(lines[open + 1..i])
    requires codeBuf == CodeText(lines[open + 1..i]) && html + Body(lines[open..]) == body
    ensures (html + ("<pre><code>" + EscapeHtml(Some(codeBuf), true) + "</code></pre>\n")) + Body(lines[i + 1..]) == body
  {
    StepFenceClose(lines, open, i);
    Emit(html, "<pre><code>" + EscapeHtml(Some(codeBuf), true) + "</code></pre>\n", Body(lines[i + 1..]), body);
  }

  /** At the end of the lines, outside a code block, the emitted text is the whole body. */
  lemma Finish(lines: seq<string>, i: nat, html: string, body: string)
    requires i == |lines| && html + Body(lines[i..]) == body
    ensures html == body
  {
    assert lines[i..] == [];
    assert html + [] == html;
  }

  lemma {:induction false} StepCodeLine(lines: seq<string>, open: nat, i: nat)
    requires open < i < |lines|
    ensures CodeText(lines[open + 1..i + 1]) == CodeText(lines[open + 1..i]) + lines[i] + "\n"
  {
    var s := lines[open + 1..i + 1];
    assert s[..|s| - 1] == lines[open + 1..i];
  }


  lemma {:induction false} StepHeading(lines: seq<string>, i: nat, k: Level)
    requires i < |lines| && MatchesHeading(lines[i], k)
    ensures Body(lines[i..]) == "<h" + [LevelDigit(k)] + ">" + EscapeInline(lines[i][k + 1..]) + "</h" + [LevelDigit(k)] + ">\n" + Body(lines[i + 1..])
  {
    BodyHeading(lines[i..], k);
  }

  lemma {:induction false} StepRule(lines: seq<string>, i: nat)
    requires i < |lines| && IsRule(lines[i])
    ensures Body(lines[i..]) == "<hr/>\n" + Body(lines[i + 1..])
  {
    BodyRule(lines[i..]);
  }

  lemma {:induction false} StepBlank(lines: seq<string>, i: nat)
    requires i < |lines| && Trim(lines[i]) == []
    ensures Body(lines[i..]) == "\n" + Body(lines[i + 1..])
  {
    BodyBlank(lines[i..]);
  }

  lemma {:induction false} StepParagraph(lines: seq<string>, i: nat)
    requires i < |lines| && Trim(lines[i]) != []
    requires !IsFence(lines[i]) && HeadingLevel(lines[i]) == None && !IsRule(lines[i]) && !IsListItem(Trim(lines[i]))
    ensures Body(lines[i..]) == "<p>" + EscapeInline(lines[i]) + "</p>\n" + Body(lines[i + 1..])
  {
    BodyParagraph(lines[i..]);
  }

  lemma {:induction false} ShiftListRun(lines: seq<string>, i: nat, j: nat)
    requires i < j <= |lines|
    requires forall k :: i <= k < j ==> InListRun(lines[k])
    requires j == |lines| || !InListRun(lines[j])
    ensures PrefixWhere(lines[i..], InListRun) == j - i
  {
    var s := lines[i..];
    forall k | 0 <= k < j - i ensures InListRun(s[k]) {
      assert s[k] == lines[i + k];
    }
    assert j - i == |s| || s[j - i] == lines[j];
    PrefixWhereAt(s, InListRun, j - i);
  }

  lemma {:induction false} StepListEntry(lines: seq<string>, i: nat, j: nat)
    requires i <= j < |lines|
    ensures RenderEntries(Entries(lines[i..j + 1])) == RenderEntries(Entries(lines[i..j])) + RenderEntry(EntryOf(lines[j]))
  {
    var run := lines[i..j + 1];
    assert run[..|run| - 1] == lines[i..j] && run[|run| - 1] == lines[j];
    var es, e := Entries(lines[i..j]), EntryOf(lines[j]);
    assert Entries(run) == es + [e];
    assert (es + [e])[..|es|] == es;
  }

  lemma {:induction false} StepList(lines: seq<string>, i: nat, j: nat)
    requires i < j <= |lines| && IsListItem(Trim(lines[i]))
    requires forall k :: i <= k < j ==> InListRun(lines[k])
    requires j == |lines| || !InListRun(lines[j])
    ensures Body(lines[i..]) == "<ul>\n" + RenderEntries(Entries(lines[i..j])) + "</ul>\n" + Body(lines[j..])
  {
    var sub, n := lines[i..], j - i;
    ShiftListRun(lines, i, j);
    assert sub[..n] == lines[i..j];
    assert sub[n..] == lines[j..];
    BodyList(sub);
  }

  /** Before the first line is taken the list has no entries. */
  lemma EmptyList(lines: seq<string>, i: nat)
    requires i <= |lines|
    ensures "<ul>\n" + RenderEntries(Entries(lines[i..i])) == "<ul>\n"
  {
    assert lines[i..i] == [];
    assert "<ul>\n" + "" == "<ul>\n";
  }

  /** What one line of a list run contributes, in terms of its trimmed form t. */
  lemma ListLine(line: string, t: string)
    requires t == Trim(line)
    ensures InListRun(line) <==> IsListItem(t) || t == []
    ensures IsListItem(t) ==> RenderEntry(EntryOf(line)) == "  <li>" + EscapeInline(t[2..]) + "</li>\n"
    ensures !IsListItem(t) ==> RenderEntry(EntryOf(line)) == "\n"
  {
  }

  /** Taking line j into the list: the fragment grows by that line's entry. */
  lemma ListStep(lines: seq<string>, i: nat, j: nat, t: string, entry: string, fragment: string)
    requires i <= j < |lines| && t == Trim(lines[j]) && (IsListItem(t) || t == [])
    requires entry == if IsListItem(t) then "  <li>" + EscapeInline(t[2..]) + "</li>\n" else "\n"
    requires fragment == "<ul>\n" + RenderEntries(Entries(lines[i..j]))
    ensures fragment + entry == "<ul>\n" + RenderEntries(Entries(lines[i..j + 1]))
    ensures InListRun(lines[j])
  {
    hide *;
    ListLine(lines[j], t);
    StepListEntry(lines, i, j);
    var before := RenderEntries(Entries(lines[i..j]));
    assert ("<ul>\n" + before) + entry == "<ul>\n" + (before + entry);
  }

  /**
   * The inner pass of renderMarkdownToHtml over a list: starting at an item
   * line, it takes item lines as <li> elements and blank lines as newlines, and
   * stops at the first line that is neither (or at the end). j is where the
   * outer pass resumes.
   */
  method GatherList(lines: seq<string>, i: nat) returns (fragment: string, j: nat)
    requires i < |lines| && IsListItem(Trim(lines[i]))
    ensures i < j <= |lines|
    ensures forall k :: i <= k < j ==> InListRun(lines[k])
    ensures j == |lines| || !InListRun(lines[j])
    ensures fragment == "<ul>\n" + RenderEntries(Entries(lines[i..j])) + "</ul>\n"
  {
    hide EscapeInline, RenderEntries, Entries, InListRun, Trim;
    fragment := "<ul>\n";
    j := i;
    EmptyList(lines, i);
    while j < |lines|
      invariant i <= j <= |lines|
      invariant forall k :: i <= k < j ==> InListRun(lines[k])
      invariant fragment == "<ul>\n" + RenderEntries(Entries(lines[i..j]))
    {
      var t := Trim(lines[j]);
      var entry;
      if IsListItem(t) {
        entry := "  <li>" + EscapeInline(t[2..]) + "</li>\n";
      } else if t == [] {
        entry := "\n";
      } else {
        ListLine(lines[j], t);
        break;
      }
      ListStep(lines, i, j, t, entry, fragment);
      fragment := fragment + entry;
      j := j + 1;
    }
    fragment := fragment + "</ul>\n";
  }

  /**
   * renderMarkdownToHtml: one pass over the lines with an in-code flag and a
   * code buffer; a list item starts an inner pass that gathers the run of
   * item and blank lines, after which the outer pass resumes where it stopped.
   */
  method RenderMarkdownToHtml(markdown: Option<string>) returns (page: string)
    ensures page == PagePrefix + Body(DocumentLines(markdown)) + PageSuffix
  {
    hide Body;
    var md := NormalizeCrlf(markdown.GetOr(""));
    var lines := SplitLines(md);
    var html := RenderLines(lines);
    page := PagePrefix + html + PageSuffix;
  }

  /**
   * One step of the scanner outside a code block, on a line that is not a
   * fence: the heading tests from level 6 down, the rule test, the list
   * gathering, the blank line and the paragraph, in that order. next is the
   * index of the first line the step did not consume.
   */
  method ScanLine(lines: seq<string>, i: nat) returns (fragment: string, next: nat)
    requires i < |lines| && !IsFence(lines[i])
    ensures i < next <= |lines|
    ensures Body(lines[i..]) == fragment + Body(lines[next..])
  {
    var line := lines[i];
    next := i + 1;
    var level := HeadingLevel(line);
    if level.Some? {
      var k := level.value;
      StepHeading(lines, i, k);
      fragment := "<h" + [LevelDigit(k)] + ">" + EscapeInline(line[k + 1..]) + "</h" + [LevelDigit(k)] + ">\n";
    } else if IsRule(line) {
      StepRule(lines, i);
      fragment := "<hr/>\n";
    } else if IsListItem(Trim(line)) {
      fragment, next := GatherList(lines, i);
      StepList(lines, i, next);
    } else if Trim(line) == [] {
      StepBlank(lines, i);
      fragment := "\n";
    } else {
      StepParagraph(lines, i);
      fragment := "<p>" + EscapeInline(line) + "</p>\n";
    }
  }

  /**
   * The loop of renderMarkdownToHtml over the lines, with the in-code flag and
   * the code buffer. The ghost index `open` is the first line whose output is
   * still pending: the current line outside a code block, the opening fence
   * inside one.
   */
  method RenderLines(lines: seq<string>) returns (html: string)
    ensures html == Body(lines)
  {
    hide *;
    ghost var body := Body(lines);
    html := "";
    var inCode := false;
    var codeBuf := "";
    ghost var open: nat := 0;
    var i := 0;
    while i < |lines|
      invariant open <= i <= |lines|
      invariant html + Body(lines[open..]) == body
      invariant !inCode ==> open == i
      invariant inCode ==> open < i && IsFence(lines[open]) && NoFence(lines[open + 1..i])
      invariant inCode ==> codeBuf == CodeText(lines[open + 1..i])
    {
      var line := lines[i];
      if IsFence(line) {
        if !inCode {
          inCode := true;
          codeBuf := "";
          OpenFence(lines, i);
        } else {
          var fragment := "<pre><code>" + EscapeHtml(Some(codeBuf), true) + "</code></pre>\n";
          CloseFence(lines, open, i, codeBuf, html, body);
          html := html + fragment;
          inCode := false;
          open := i + 1;
        }
        i := i + 1;
      } else if inCode {
        StepCodeLine(lines, open, i);
        ExtendCode(lines, open, i);
        codeBuf := codeBuf + line + "\n";
        i := i + 1;
      } else {
        var fragment, next := ScanLine(lines, i);
        Emit(html, fragment, Body(lines[next..]), body);
        html := html + fragment;
        i := next;
        open := next;
      }
    }
    if inCode {
      StepFenceUnclosed(lines, open, i);
      var fragment := "<pre><code>" + EscapeHtml(Some(codeBuf), true) + "</code></pre>\n";
      html := html + fragment;
    } else {
      Finish(lines, i, html, body);
    }
  }
}
