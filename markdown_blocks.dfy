/**
 * What renderMarkdownToHtml emits, stated as two stages: the lines are
 * classified into blocks (fenced code, heading, rule, list, blank,
 * paragraph) in the source's order of precedence, and each block renders to
 * a fixed HTML fragment. The imperative scanner in DocsController is proved
 * to produce exactly this.
 */
module MarkdownBlocks {
  import opened Wrappers
  import opened JavaText
  import opened HtmlEscape
  import opened InlineFormat

  type Level = k: nat | 1 <= k <= 6 witness 1

  /** One line of a list run: an item with the text after its marker, or a blank line. */
  datatype Entry = Item(text: string) | Gap

  datatype Block =
    | Code(lines: seq<string>)            // lines between a fence and the next fence (or the end)
    | Heading(level: Level, text: string)  // text after the hashes and the space
    | Rule
    | List(entries: seq<Entry>)
    | Blank
    | Paragraph(text: string)              // the whole, untrimmed line

  /** line.trim().startsWith("```"), spelled out character by character. */
  predicate IsFence(line: string) {
    var t := Trim(line);
    |t| >= 3 && t[0] == '`' && t[1] == '`' && t[2] == '`'
  }

  /** No line of the run is a fence: the lines a code block buffers. */
  predicate NoFence(run: seq<string>)
    decreases |run|
  {
    run == [] || (!IsFence(run[|run| - 1]) && NoFence(run[..|run| - 1]))
  }

  /** NoFence says exactly that no index holds a fence. */
  lemma {:induction false} NoFenceMeans(run: seq<string>)
    ensures NoFence(run) <==> forall k :: 0 <= k < |run| ==> !IsFence(run[k])
    decreases |run|
  {
    if run != [] {
      var init := run[..|run| - 1];
      NoFenceMeans(init);
      assert forall k :: 0 <= k < |init| ==> init[k] == run[k];
    }
  }

  /** Every character of s is c. */
  predicate AllChar(s: string, c: char)
    decreases |s|
  {
    s == [] || (s[0] == c && AllChar(s[1..], c))
  }

  lemma {:induction false} AllCharIndex(s: string, c: char, j: nat)
    requires AllChar(s, c) && j < |s|
    ensures s[j] == c
    decreases j
  {
    if j > 0 {
      AllCharIndex(s[1..], c, j - 1);
    }
  }

  /** AllChar says exactly that every index holds c. */
  lemma {:induction false} AllCharMeans(s: string, c: char)
    ensures AllChar(s, c) <==> forall j :: 0 <= j < |s| ==> s[j] == c
    decreases |s|
  {
    if s != [] {
      AllCharMeans(s[1..], c);
      if forall j :: 0 <= j < |s| ==> s[j] == c {
        assert forall j :: 0 <= j < |s[1..]| ==> s[1..][j] == c by {
          forall j | 0 <= j < |s[1..]| ensures s[1..][j] == c {
            assert s[1..][j] == s[j + 1];
          }
        }
      }
    }
  }

  /** No character of s is a line terminator, so the regex `.*` matches all of it. */
  predicate NoLineTerminator(s: string)
    decreases |s|
  {
    s == [] || (!IsLineTerminator(s[0]) && NoLineTerminator(s[1..]))
  }

  /** line.matches("^" + k hashes + " \\S.*"): `.` matches anything but a line terminator. */
  predicate MatchesHeading(line: string, k: Level) {
    && k + 2 <= |line|
    && AllChar(line[..k], '#')
    && line[k] == ' '
    && !IsRegexSpace(line[k + 1])
    && NoLineTerminator(line[k + 2..])
  }

  /** The six heading tests, tried from level 6 down to level 1. */
  function HeadingLevel(line: string): (r: Option<Level>)
    ensures r.Some? ==> MatchesHeading(line, r.value)
  {
    if MatchesHeading(line, 6) then Some(6)
    else if MatchesHeading(line, 5) then Some(5)
    else if MatchesHeading(line, 4) then Some(4)
    else if MatchesHeading(line, 3) then Some(3)
    else if MatchesHeading(line, 2) then Some(2)
    else if MatchesHeading(line, 1) then Some(1)
    else None
  }

  /** line.trim().matches("^(---+|===+)$") */
  predicate IsRule(line: string) {
    var t := Trim(line);
    |t| >= 3 && (AllChar(t, '-') || AllChar(t, '='))
  }

  /** t.startsWith("- ") || t.startsWith("* "), on a trimmed line t. */
  predicate IsListItem(t: string) {
    |t| >= 2 && (t[0] == '-' || t[0] == '*') && t[1] == ' '
  }

  /** A line the list gathering loop takes: an item or a blank line. */
  predicate InListRun(line: string) {
    IsListItem(Trim(line)) || |Trim(line)| == 0
  }

  function EntryOf(line: string): Entry {
    var t := Trim(line);
    if IsListItem(t) then Item(t[2..]) else Gap
  }

  /** The entries of a run of list lines, one per line, in order. */
  function Entries(lines: seq<string>): (es: seq<Entry>)
    ensures |es| == |lines|
  {
    if lines == [] then [] else Entries(lines[..|lines| - 1]) + [EntryOf(lines[|lines| - 1])]
  }

  /** Index of the first line satisfying p, or |lines| when there is none. */
  function FirstWhere(lines: seq<string>, p: string -> bool): (n: nat)
    ensures n <= |lines|
  {
    if lines == [] || p(lines[0]) then 0 else 1 + FirstWhere(lines[1..], p)
  }

  /** FirstWhere finds the first line satisfying p: none before it does, and it does unless it is the end. */
  lemma {:induction false} FirstWhereFirst(lines: seq<string>, p: string -> bool)
    ensures var n := FirstWhere(lines, p);
      (n < |lines| ==> p(lines[n])) && forall k :: 0 <= k < n ==> !p(lines[k])
  {
    if lines != [] && !p(lines[0]) {
      FirstWhereFirst(lines[1..], p);
      var n := FirstWhere(lines, p);
      forall k | 1 <= k < n ensures !p(lines[k]) {
        assert lines[k] == lines[1..][k - 1];
      }
      if n < |lines| {
        assert lines[n] == lines[1..][n - 1];
      }
    }
  }

  /** Conversely, an index with that property is what FirstWhere returns. */
  lemma {:induction false} FirstWhereAt(lines: seq<string>, p: string -> bool, n: nat)
    requires n <= |lines| && (n < |lines| ==> p(lines[n]))
    requires forall k :: 0 <= k < n ==> !p(lines[k])
    ensures FirstWhere(lines, p) == n
  {
    if n > 0 {
      forall k | 0 <= k < n - 1 ensures !p(lines[1..][k]) {
        assert lines[1..][k] == lines[k + 1];
      }
      assert n - 1 < |lines[1..]| ==> lines[1..][n - 1] == lines[n];
      FirstWhereAt(lines[1..], p, n - 1);
    }
  }

  /** Length of the longest prefix of lines satisfying p. */
  function PrefixWhere(lines: seq<string>, p: string -> bool): (n: nat)
    ensures n <= |lines|
  {
    if lines == [] || !p(lines[0]) then 0 else 1 + PrefixWhere(lines[1..], p)
  }

  /** The prefix is maximal: every line in it satisfies p and the line after it does not. */
  lemma {:induction false} PrefixWhereMaximal(lines: seq<string>, p: string -> bool)
    ensures var n := PrefixWhere(lines, p);
      (n < |lines| ==> !p(lines[n])) && forall k :: 0 <= k < n ==> p(lines[k])
  {
    if lines != [] && p(lines[0]) {
      PrefixWhereMaximal(lines[1..], p);
      var n := PrefixWhere(lines, p);
      forall k | 1 <= k < n ensures p(lines[k]) {
        assert lines[k] == lines[1..][k - 1];
      }
      if n < |lines| {
        assert lines[n] == lines[1..][n - 1];
      }
    }
  }

  /** Conversely, a maximal prefix is the one PrefixWhere measures. */
  lemma {:induction false} PrefixWhereAt(lines: seq<string>, p: string -> bool, n: nat)
    requires n <= |lines| && (n < |lines| ==> !p(lines[n]))
    requires forall k :: 0 <= k < n ==> p(lines[k])
    ensures PrefixWhere(lines, p) == n
  {
    if n > 0 {
      forall k | 0 <= k < n - 1 ensures p(lines[1..][k]) {
        assert lines[1..][k] == lines[k + 1];
      }
      assert n - 1 < |lines[1..]| ==> lines[1..][n - 1] == lines[n];
      PrefixWhereAt(lines[1..], p, n - 1);
    }
  }

  /** Classification of the lines into blocks, in the scanner's order of precedence. */
  function ParseBlocks(lines: seq<string>): seq<Block>
    decreases |lines|
  {
    if lines == [] then []
    else
      var line := lines[0];
      if IsFence(line) then
        var n := FirstWhere(lines[1..], IsFence);
        if n + 1 < |lines| then [Code(lines[1..n + 1])] + ParseBlocks(lines[n + 2..])
        else [Code(lines[1..])]
      else match HeadingLevel(line)
        case Some(k) => [Heading(k, line[k + 1..])] + ParseBlocks(lines[1..])
        case None =>
          if IsRule(line) then [Rule] + ParseBlocks(lines[1..])
          else if IsListItem(Trim(line)) then
            var n := PrefixWhere(lines, InListRun);
            [List(Entries(lines[..n]))] + ParseBlocks(lines[n..])
          else if Trim(line) == [] then [Blank] + ParseBlocks(lines[1..])
          else [Paragraph(line)] + ParseBlocks(lines[1..])
  }

  /** The code buffer: every line followed by '\n'. */
  function CodeText(lines: seq<string>): string {
    if lines == [] then "" else CodeText(lines[..|lines| - 1]) + lines[|lines| - 1] + "\n"
  }

  function LevelDigit(k: Level): char {
    ('0' as int + k) as char
  }

  function RenderEntry(e: Entry): string {
    match e
    case Item(t) => "  <li>" + EscapeInline(t) + "</li>\n"
    case Gap => "\n"
  }

  function RenderEntries(es: seq<Entry>): string {
    if es == [] then "" else RenderEntries(es[..|es| - 1]) + RenderEntry(es[|es| - 1])
  }

  function RenderBlock(b: Block): string {
    match b
    case Code(ls) => "<pre><code>" + EscapeHtml(Some(CodeText(ls)), true) + "</code></pre>\n"
    case Heading(k, t) => "<h" + [LevelDigit(k)] + ">" + EscapeInline(t) + "</h" + [LevelDigit(k)] + ">\n"
    case Rule => "<hr/>\n"
    case List(es) => "<ul>\n" + RenderEntries(es) + "</ul>\n"
    case Blank => "\n"
    case Paragraph(t) => "<p>" + EscapeInline(t) + "</p>\n"
  }

  function RenderBlocks(bs: seq<Block>): string {
    if bs == [] then "" else RenderBlock(bs[0]) + RenderBlocks(bs[1..])
  }

  /** The HTML body the scanner emits for the given lines. */
  function Body(lines: seq<string>): string {
    RenderBlocks(ParseBlocks(lines))
  }

  // ---- How the classifiers relate ----

  /** At most one heading pattern matches a line. */
  lemma {:induction false} HeadingUnique(line: string, a: Level, b: Level)
    requires MatchesHeading(line, a) && MatchesHeading(line, b)
    ensures a == b
  {
    if a < b {
      AllCharIndex(line[..b], '#', a);
    } else if b < a {
      AllCharIndex(line[..a], '#', b);
    }
  }

  /** The level reported is the one heading pattern the line matches, and None means none matches. */
  lemma {:induction false} HeadingLevelExact(line: string)
    ensures forall k: Level :: MatchesHeading(line, k) <==> HeadingLevel(line) == Some(k)
  {
    forall k: Level | MatchesHeading(line, k) ensures HeadingLevel(line) == Some(k) {
      HeadingUnique(line, k, HeadingLevel(line).value);
    }
  }


  /** A heading line starts with '#', so its trimmed form does too. */
  lemma {:induction false} HeadingHash(line: string, k: Level)
    requires MatchesHeading(line, k)
    ensures Trim(line) != [] && Trim(line)[0] == '#'
  {
    AllCharIndex(line[..k], '#', 0);
    TrimKeepsVisibleHead(line);
  }

  /** A heading line is not a fence. */
  lemma {:induction false} HeadingNotFence(line: string, k: Level)
    requires MatchesHeading(line, k)
    ensures !IsFence(line)
  {
    HeadingHash(line, k);
  }

  /** A rule line is neither a fence nor a heading. */
  lemma {:induction false} RuleIsOnlyRule(line: string)
    requires IsRule(line)
    ensures !IsFence(line) && HeadingLevel(line) == None
  {
    var t := Trim(line);
    if AllChar(t, '-') {
      AllCharIndex(t, '-', 0);
    } else {
      AllCharIndex(t, '=', 0);
    }
    if HeadingLevel(line).Some? {
      HeadingHash(line, HeadingLevel(line).value);
    }
  }

  /** A list item line is neither a fence, a heading nor a rule. */
  lemma {:induction false} ListItemIsOnlyListItem(line: string)
    requires IsListItem(Trim(line))
    ensures !IsFence(line) && HeadingLevel(line) == None && !IsRule(line)
  {
    var t := Trim(line);
    if AllChar(t, '-') {
      AllCharIndex(t, '-', 1);
    }
    if HeadingLevel(line).Some? {
      HeadingHash(line, HeadingLevel(line).value);
    }
  }

  /** A blank line is neither a fence, a heading, a rule nor a list item. */
  lemma {:induction false} BlankIsOnlyBlank(line: string)
    requires Trim(line) == []
    ensures !IsFence(line) && HeadingLevel(line) == None && !IsRule(line) && !IsListItem(Trim(line))
  {
    if HeadingLevel(line).Some? {
      HeadingHash(line, HeadingLevel(line).value);
    }
  }

  /** Where the first fence after an opening fence lies (|lines| when there is none). */
  lemma {:induction false} FenceAfter(lines: seq<string>, n: nat)
    requires 1 <= n <= |lines| && (n < |lines| ==> IsFence(lines[n]))
    requires forall k :: 1 <= k < n ==> !IsFence(lines[k])
    ensures FirstWhere(lines[1..], IsFence) == n - 1
  {
    var s := lines[1..];
    forall k | 0 <= k < n - 1 ensures !IsFence(s[k]) {
      assert s[k] == lines[k + 1];
    }
    assert n - 1 < |s| ==> s[n - 1] == lines[n];
    FirstWhereAt(s, IsFence, n - 1);
  }

  // ---- Which block each kind of line starts ----

  lemma {:induction false} ParseFenceClosed(lines: seq<string>, n: nat)
    requires 1 <= n < |lines| && IsFence(lines[0]) && IsFence(lines[n])
    requires forall k :: 1 <= k < n ==> !IsFence(lines[k])
    ensures ParseBlocks(lines) == [Code(lines[1..n])] + ParseBlocks(lines[n + 1..])
  {
    FenceAfter(lines, n);
  }

  lemma {:induction false} ParseFenceUnclosed(lines: seq<string>)
    requires lines != [] && IsFence(lines[0])
    requires forall k :: 1 <= k < |lines| ==> !IsFence(lines[k])
    ensures ParseBlocks(lines) == [Code(lines[1..])]
  {
    FenceAfter(lines, |lines|);
  }

  lemma {:induction false} ParseHeading(lines: seq<string>, k: Level)
    requires lines != [] && MatchesHeading(lines[0], k)
    ensures ParseBlocks(lines) == [Heading(k, lines[0][k + 1..])] + ParseBlocks(lines[1..])
  {
    HeadingNotFence(lines[0], k);
    HeadingLevelExact(lines[0]);
  }

  lemma {:induction false} ParseRule(lines: seq<string>)
    requires lines != [] && IsRule(lines[0])
    ensures ParseBlocks(lines) == [Rule] + ParseBlocks(lines[1..])
  {
    RuleIsOnlyRule(lines[0]);
  }

  lemma {:induction false} ParseList(lines: seq<string>)
    requires lines != [] && IsListItem(Trim(lines[0]))
    ensures var n := PrefixWhere(lines, InListRun);
      1 <= n && ParseBlocks(lines) == [List(Entries(lines[..n]))] + ParseBlocks(lines[n..])
  {
    ListItemIsOnlyListItem(lines[0]);
  }

  lemma {:induction false} ParseBlank(lines: seq<string>)
    requires lines != [] && Trim(lines[0]) == []
    ensures ParseBlocks(lines) == [Blank] + ParseBlocks(lines[1..])
  {
    BlankIsOnlyBlank(lines[0]);
  }

  lemma {:induction false} ParseParagraph(lines: seq<string>)
    requires lines != [] && Trim(lines[0]) != []
    requires !IsFence(lines[0]) && HeadingLevel(lines[0]) == None && !IsRule(lines[0]) && !IsListItem(Trim(lines[0]))
    ensures ParseBlocks(lines) == [Paragraph(lines[0])] + ParseBlocks(lines[1..])
  {
  }

  // ---- What each kind of line contributes to the body ----

  /** A block followed by the blocks of the remaining lines renders as that block's fragment, then the rest. */
  lemma {:induction false} BodyCons(lines: seq<string>, b: Block, n: nat, fragment: string)
    requires n <= |lines| && ParseBlocks(lines) == [b] + ParseBlocks(lines[n..])
    requires RenderBlock(b) == fragment
    ensures Body(lines) == fragment + Body(lines[n..])
  {
    assert ([b] + ParseBlocks(lines[n..]))[1..] == ParseBlocks(lines[n..]);
  }

  /** A heading line renders as <hK> around its inline-escaped text, then scanning resumes at the next line. */
  lemma {:induction false} BodyHeading(lines: seq<string>, k: Level)
    requires lines != [] && MatchesHeading(lines[0], k)
    ensures Body(lines) == "<h" + [LevelDigit(k)] + ">" + EscapeInline(lines[0][k + 1..]) + "</h" + [LevelDigit(k)] + ">\n" + Body(lines[1..])
  {
    ParseHeading(lines, k);
    BodyCons(lines, Heading(k, lines[0][k + 1..]), 1, "<h" + [LevelDigit(k)] + ">" + EscapeInline(lines[0][k + 1..]) + "</h" + [LevelDigit(k)] + ">\n");
  }

  /** A rule line renders as <hr/>. */
  lemma {:induction false} BodyRule(lines: seq<string>)
    requires lines != [] && IsRule(lines[0])
    ensures Body(lines) == "<hr/>\n" + Body(lines[1..])
  {
    ParseRule(lines);
    BodyCons(lines, Rule, 1, "<hr/>\n");
  }

  /** A blank line (empty once trimmed) outside a list renders as a bare newline. */
  lemma {:induction false} BodyBlank(lines: seq<string>)
    requires lines != [] && Trim(lines[0]) == []
    ensures Body(lines) == "\n" + Body(lines[1..])
  {
    ParseBlank(lines);
    BodyCons(lines, Blank, 1, "\n");
  }

  /** An opening fence followed by a closing fence at index n renders the lines between them as one escaped code block. */
  lemma {:induction false} BodyFenceClosed(lines: seq<string>, n: nat)
    requires 1 <= n < |lines| && IsFence(lines[0]) && IsFence(lines[n])
    requires forall k :: 1 <= k < n ==> !IsFence(lines[k])
    ensures Body(lines) == "<pre><code>" + EscapeHtml(Some(CodeText(lines[1..n])), true) + "</code></pre>\n" + Body(lines[n + 1..])
  {
    ParseFenceClosed(lines, n);
    BodyCons(lines, Code(lines[1..n]), n + 1, "<pre><code>" + EscapeHtml(Some(CodeText(lines[1..n])), true) + "</code></pre>\n");
  }

  /** An opening fence with no closing fence renders everything after it as one escaped code block. */
  lemma {:induction false} BodyFenceUnclosed(lines: seq<string>)
    requires lines != [] && IsFence(lines[0])
    requires forall k :: 1 <= k < |lines| ==> !IsFence(lines[k])
    ensures Body(lines) == "<pre><code>" + EscapeHtml(Some(CodeText(lines[1..])), true) + "</code></pre>\n"
  {
    ParseFenceUnclosed(lines);
    BodyCons(lines, Code(lines[1..]), |lines|, "<pre><code>" + EscapeHtml(Some(CodeText(lines[1..])), true) + "</code></pre>\n");
    assert Body(lines[|lines|..]) == "";
  }

  /**
   * A list item gathers the longest run of item and blank lines into one <ul>:
   * items become <li> elements, blank lines stay as newlines, and scanning resumes
   * at the first line of the run that is neither.
   */
  lemma {:induction false} BodyList(lines: seq<string>)
    requires lines != [] && IsListItem(Trim(lines[0]))
    ensures var n := PrefixWhere(lines, InListRun);
      && 1 <= n
      && (n < |lines| ==> !InListRun(lines[n]))
      && (forall k :: 0 <= k < n ==> InListRun(lines[k]))
      && Body(lines) == "<ul>\n" + RenderEntries(Entries(lines[..n])) + "</ul>\n" + Body(lines[n..])
  {
    PrefixWhereMaximal(lines, InListRun);
    ParseList(lines);
    var n := PrefixWhere(lines, InListRun);
    BodyCons(lines, List(Entries(lines[..n])), n, "<ul>\n" + RenderEntries(Entries(lines[..n])) + "</ul>\n");
  }


  /** Any other non-blank line becomes a paragraph of its whole, untrimmed text. */
  lemma {:induction false} BodyParagraph(lines: seq<string>)
    requires lines != [] && Trim(lines[0]) != []
    requires !IsFence(lines[0]) && HeadingLevel(lines[0]) == None && !IsRule(lines[0]) && !IsListItem(Trim(lines[0]))
    ensures Body(lines) == "<p>" + EscapeInline(lines[0]) + "</p>\n" + Body(lines[1..])
  {
    ParseParagraph(lines);
    BodyCons(lines, Paragraph(lines[0]), 1, "<p>" + EscapeInline(lines[0]) + "</p>\n");
  }

  /** A line starting with a letter or digit is a paragraph. */
  lemma {:induction false} BodyWordLine(lines: seq<string>)
    requires lines != [] && lines[0] != []
    requires 'a' <= lines[0][0] <= 'z' || 'A' <= lines[0][0] <= 'Z' || '0' <= lines[0][0] <= '9'
    ensures Body(lines) == "<p>" + EscapeInline(lines[0]) + "</p>\n" + Body(lines[1..])
  {
    var line := lines[0];
    TrimKeepsVisibleHead(line);
    if HeadingLevel(line).Some? {
      HeadingHash(line, HeadingLevel(line).value);
    }
    BodyParagraph(lines);
  }

  /** Hashes that do not form a heading (seven or more, or no space and visible character after them) fall back to a paragraph. */
  lemma {:induction false} BodyHashParagraph(lines: seq<string>, h: nat)
    requires lines != [] && 1 <= h <= |lines[0]|
    requires forall j :: 0 <= j < h ==> lines[0][j] == '#'
    requires h == |lines[0]| || lines[0][h] != '#'
    requires h >= 7 || h + 2 > |lines[0]| || lines[0][h] != ' ' || IsRegexSpace(lines[0][h + 1])
    ensures Body(lines) == "<p>" + EscapeInline(lines[0]) + "</p>\n" + Body(lines[1..])
  {
    var line := lines[0];
    TrimKeepsVisibleHead(line);
    if HeadingLevel(line).Some? {
      var k := HeadingLevel(line).value;
      if k > h {
        AllCharIndex(line[..k], '#', h);
      }
    }
    BodyParagraph(lines);
  }
}
