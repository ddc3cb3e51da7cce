/**
 * DocsController.escapeInline: four regular-expression replaceAll passes
 * (code spans, bold, italic, links), each written as a left-to-right scanner
 * that takes the leftmost match, never overlaps matches and resumes after
 * the end of each match, followed by escapeHtml(x, false) on the WHOLE
 * substituted text, so the tags the passes insert come out escaped as well.
 */
module InlineFormat {
  import opened Wrappers
  import opened JavaText
  import opened HtmlEscape

  /**
   * Does `([^`]+)` match at the start of s? If so, the index of the closing
   * backtick: the capture is s[1..k], matching resumes at s[k + 1..].
   */
  function CodeAt(s: string): (m: Option<nat>)
    ensures m.Some? ==> 2 <= m.value < |s|
  {
    if s != [] && s[0] == '`' then
      var k := 1 + IndexOf(s[1..], '`');
      if 1 < k < |s| then Some(k) else None
    else None
  }

  /** replaceAll("`([^`]+)`", "<code>$1</code>"). */
  function CodeSpans(s: string): string
    decreases |s|
  {
    if s == [] then []
    else match CodeAt(s)
      case Some(k) => "<code>" + s[1..k] + "</code>" + CodeSpans(s[k + 1..])
      case None => [s[0]] + CodeSpans(s[1..])
  }

  /** Does `\*\*([^*]+)\*\*` match at the start of s? The index of the first closing star. */
  function BoldAt(s: string): (m: Option<nat>)
    ensures m.Some? ==> 3 <= m.value && m.value + 1 < |s|
  {
    if |s| >= 2 && s[0] == '*' && s[1] == '*' then
      var k := 2 + IndexOf(s[2..], '*');
      if 2 < k && k + 1 < |s| && s[k + 1] == '*' then Some(k) else None
    else None
  }

  /** replaceAll("\\*\\*([^*]+)\\*\\*", "<strong>$1</strong>"). */
  function BoldSpans(s: string): string
    decreases |s|
  {
    if s == [] then []
    else match BoldAt(s)
      case Some(k) => "<strong>" + s[2..k] + "</strong>" + BoldSpans(s[k + 2..])
      case None => [s[0]] + BoldSpans(s[1..])
  }

  /**
   * Does `(?<!\*)\*([^*]+)\*(?!\*)` match at the start of s, given whether
   * the character before s in the pass's input is a star? The index of the
   * closing star.
   */
  function ItalicAt(s: string, afterStar: bool): (m: Option<nat>)
    ensures m.Some? ==> !afterStar && 2 <= m.value < |s|
  {
    if !afterStar && s != [] && s[0] == '*' then
      var k := 1 + IndexOf(s[1..], '*');
      if 1 < k < |s| && (k + 1 == |s| || s[k + 1] != '*') then Some(k) else None
    else None
  }

  /**
   * replaceAll("(?<!\\*)\\*([^*]+)\\*(?!\\*)", "<em>$1</em>") on the rest s
   * of the input; the look-behind reads the input, so `afterStar` says
   * whether the input character before s is a star.
   */
  function ItalicSpans(s: string, afterStar: bool): string
    decreases |s|
  {
    if s == [] then []
    else match ItalicAt(s, afterStar)
      case Some(k) => "<em>" + s[1..k] + "</em>" + ItalicSpans(s[k + 1..], true)
      case None => [s[0]] + ItalicSpans(s[1..], s[0] == '*')
  }

  /**
   * Does `\[([^\]]+)\]\(([^)]+)\)` match at the start of s? The indices of
   * the closing bracket and of the closing parenthesis.
   */
  function LinkAt(s: string): (m: Option<(nat, nat)>)
    ensures m.Some? ==> 2 <= m.value.0 && m.value.0 + 2 < m.value.1 < |s|
  {
    if s != [] && s[0] == '[' then
      var k := 1 + IndexOf(s[1..], ']');
      if 1 < k && k + 1 < |s| && s[k + 1] == '(' then
        var e := k + 2 + IndexOf(s[k + 2..], ')');
        if k + 2 < e < |s| then Some((k, e)) else None
      else None
    else None
  }

  /** The anchor the link rule inserts. */
  function Anchor(text: string, url: string): string {
    "<a href=\"" + url + "\" target=\"_blank\">" + text + "</a>"
  }

  /** replaceAll("\\[([^\\]]+)\\]\\(([^)]+)\\)", "<a href=\"$2\" target=\"_blank\">$1</a>"). */
  function LinkSpans(s: string): string
    decreases |s|
  {
    if s == [] then []
    else match LinkAt(s)
      case Some((k, e)) => Anchor(s[1..k], s[k + 2..e]) + LinkSpans(s[e + 1..])
      case None => [s[0]] + LinkSpans(s[1..])
  }

  /** escapeInline(s): the four passes in source order, then escapeHtml(x, false). */
  function EscapeInline(s: string): string {
    EscapeHtml(Some(LinkSpans(ItalicSpans(BoldSpans(CodeSpans(s)), false))), false)
  }

  /** Text before the first backtick is copied by the code pass. */
  lemma {:induction false} CodeSpansCopies(p: string, s: string)
    requires '`' !in p
    ensures CodeSpans(p + s) == p + CodeSpans(s)
  {
    if p != [] {
      var x := p + s;
      assert x[0] == p[0] && x[1..] == p[1..] + s;
      CodeSpansNoMatch(x);
      CodeSpansCopies(p[1..], s);
      ConsRegroup(p, CodeSpans(s));
    } else {
      assert p + s == s;
    }
  }


  /**
   * The code pass replaces the leftmost `t` (t non-empty, without a
   * backtick) and carries on after its closing backtick.
   */
  lemma CodeSpansMatch(p: string, t: string, rest: string)
    requires '`' !in p && t != [] && '`' !in t
    ensures CodeSpans(p + "`" + t + "`" + rest) == p + "<code>" + t + "</code>" + CodeSpans(rest)
  {
    var u := "`" + t + "`" + rest;
    Regroup(p, "`", t, "`", rest);
    CodeSpansCopies(p, u);
    CodeSpansOpening(t, rest);
    Regroup(p, "<code>", t, "</code>", CodeSpans(rest));
  }

  lemma CodeSpansOpening(t: string, rest: string)
    requires t != [] && '`' !in t
    ensures CodeSpans("`" + t + "`" + rest) == "<code>" + t + "</code>" + CodeSpans(rest)
  {
    var u := "`" + t + "`" + rest;
    CodeAtOpening(t, rest);
    DelimitedPieces("`", t, "`", rest);
    CodeSpansAt(u, |t| + 1, t, rest);
  }

  /** The code pass at a match whose capture is t and whose remainder is rest. */
  lemma CodeSpansAt(u: string, k: nat, t: string, rest: string)
    requires CodeAt(u).Some? && CodeAt(u).value == k
    requires u[1..k] == t && u[k + 1..] == rest
    ensures CodeSpans(u) == "<code>" + t + "</code>" + CodeSpans(rest)
  {
    CodeSpansStep(u);
  }

  lemma CodeAtOpening(t: string, rest: string)
    requires t != [] && '`' !in t
    ensures var m := CodeAt("`" + t + "`" + rest); m.Some? && m.value == |t| + 1
  {
    var u := "`" + t + "`" + rest;
    assert u[0] == '`';
    assert u[1..] == t + "`" + rest;
    IndexOfAfter(t, '`', rest);
  }

  lemma CodeSpansStep(u: string)
    requires CodeAt(u).Some?
    ensures var k := CodeAt(u).value;
      CodeSpans(u) == "<code>" + u[1..k] + "</code>" + CodeSpans(u[k + 1..])
  {
  }

  lemma ConsRegroup(p: string, x: string)
    requires p != []
    ensures [p[0]] + (p[1..] + x) == p + x
  {
  }

  lemma Regroup(p: string, a: string, t: string, b: string, x: string)
    ensures p + a + t + b + x == p + (a + t + b + x)
  {
  }

  /** Where the capture and the rest sit in opening + t + closing + rest. */
  lemma DelimitedPieces(opening: string, t: string, closing: string, rest: string)
    ensures var u := opening + t + closing + rest;
      u[|opening|..|opening| + |t|] == t && u[|opening| + |t| + |closing|..] == rest
  {
  }

  /** Text before the first star is copied by the bold pass. */
  lemma {:induction false} BoldSpansCopies(p: string, s: string)
    requires '*' !in p
    ensures BoldSpans(p + s) == p + BoldSpans(s)
  {
    if p != [] {
      var x := p + s;
      assert x[0] == p[0] && x[1..] == p[1..] + s;
      BoldSpansNoMatch(x);
      BoldSpansCopies(p[1..], s);
      ConsRegroup(p, BoldSpans(s));
    } else {
      assert p + s == s;
    }
  }


  /** The bold pass replaces the leftmost **t** (t non-empty, without a star). */
  lemma BoldSpansMatch(p: string, t: string, rest: string)
    requires '*' !in p && t != [] && '*' !in t
    ensures BoldSpans(p + "**" + t + "**" + rest) == p + "<strong>" + t + "</strong>" + BoldSpans(rest)
  {
    var u := "**" + t + "**" + rest;
    Regroup(p, "**", t, "**", rest);
    BoldSpansCopies(p, u);
    BoldSpansOpening(t, rest);
    Regroup(p, "<strong>", t, "</strong>", BoldSpans(rest));
  }

  lemma BoldSpansOpening(t: string, rest: string)
    requires t != [] && '*' !in t
    ensures BoldSpans("**" + t + "**" + rest) == "<strong>" + t + "</strong>" + BoldSpans(rest)
  {
    var u := "**" + t + "**" + rest;
    BoldAtOpening(t, rest);
    DelimitedPieces("**", t, "**", rest);
    BoldSpansAt(u, |t| + 2, t, rest);
  }

  lemma BoldSpansAt(u: string, k: nat, t: string, rest: string)
    requires BoldAt(u).Some? && BoldAt(u).value == k
    requires u[2..k] == t && u[k + 2..] == rest
    ensures BoldSpans(u) == "<strong>" + t + "</strong>" + BoldSpans(rest)
  {
    BoldSpansStep(u);
  }

  lemma BoldSpansStep(u: string)
    requires BoldAt(u).Some?
    ensures var k := BoldAt(u).value;
      BoldSpans(u) == "<strong>" + u[2..k] + "</strong>" + BoldSpans(u[k + 2..])
  {
  }

  lemma BoldAtOpening(t: string, rest: string)
    requires t != [] && '*' !in t
    ensures var m := BoldAt("**" + t + "**" + rest); m.Some? && m.value == |t| + 2
  {
    var u := "**" + t + "**" + rest;
    assert u[0] == '*' && u[1] == '*';
    assert u[2..] == t + "*" + ("*" + rest);
    IndexOfAfter(t, '*', "*" + rest);
    assert u[|t| + 3] == '*';
  }

  /** Text without a star is copied by the italic pass; the look-behind then sees a non-star. */
  lemma {:induction false} ItalicSpansCopies(p: string, s: string, afterStar: bool)
    requires '*' !in p
    ensures ItalicSpans(p + s, afterStar) == p + ItalicSpans(s, if p == [] then afterStar else false)
  {
    if p != [] {
      var x := p + s;
      assert x[0] == p[0] && x[1..] == p[1..] + s;
      ItalicSpansNoMatch(x, afterStar);
      ItalicSpansCopies(p[1..], s, false);
      ConsRegroup(p, ItalicSpans(s, false));
    } else {
      assert p + s == s;
    }
  }


  /**
   * The italic pass replaces the leftmost *t* (t non-empty, without a star)
   * that has no star just before or just after it.
   */
  lemma ItalicSpansMatch(p: string, t: string, rest: string, afterStar: bool)
    requires '*' !in p && t != [] && '*' !in t
    requires p == [] ==> !afterStar
    requires rest == [] || rest[0] != '*'
    ensures ItalicSpans(p + "*" + t + "*" + rest, afterStar) == p + "<em>" + t + "</em>" + ItalicSpans(rest, true)
  {
    var u := "*" + t + "*" + rest;
    Regroup(p, "*", t, "*", rest);
    ItalicSpansCopies(p, u, afterStar);
    assert (if p == [] then afterStar else false) == false;
    ItalicSpansOpening(t, rest);
    Regroup(p, "<em>", t, "</em>", ItalicSpans(rest, true));
  }

  lemma ItalicSpansOpening(t: string, rest: string)
    requires t != [] && '*' !in t && (rest == [] || rest[0] != '*')
    ensures ItalicSpans("*" + t + "*" + rest, false) == "<em>" + t + "</em>" + ItalicSpans(rest, true)
  {
    var u := "*" + t + "*" + rest;
    ItalicAtOpening(t, rest);
    DelimitedPieces("*", t, "*", rest);
    ItalicSpansAt(u, |t| + 1, t, rest);
  }

  lemma ItalicSpansAt(u: string, k: nat, t: string, rest: string)
    requires ItalicAt(u, false).Some? && ItalicAt(u, false).value == k
    requires u[1..k] == t && u[k + 1..] == rest
    ensures ItalicSpans(u, false) == "<em>" + t + "</em>" + ItalicSpans(rest, true)
  {
    ItalicSpansStep(u, false);
  }

  lemma ItalicAtOpening(t: string, rest: string)
    requires t != [] && '*' !in t
    requires rest == [] || rest[0] != '*'
    ensures var m := ItalicAt("*" + t + "*" + rest, false); m.Some? && m.value == |t| + 1
  {
    var u := "*" + t + "*" + rest;
    assert u[0] == '*';
    assert u[1..] == t + "*" + rest;
    IndexOfAfter(t, '*', rest);
    assert |t| + 2 < |u| ==> u[|t| + 2] == rest[0];
  }

  lemma ItalicSpansStep(u: string, afterStar: bool)
    requires ItalicAt(u, afterStar).Some?
    ensures var k := ItalicAt(u, afterStar).value;
      ItalicSpans(u, afterStar) == "<em>" + u[1..k] + "</em>" + ItalicSpans(u[k + 1..], true)
  {
  }

  /** Text before the first '[' is copied by the link pass. */
  lemma {:induction false} LinkSpansCopies(p: string, s: string)
    requires '[' !in p
    ensures LinkSpans(p + s) == p + LinkSpans(s)
  {
    if p != [] {
      var x := p + s;
      assert x[0] == p[0] && x[1..] == p[1..] + s;
      LinkSpansNoMatch(x);
      LinkSpansCopies(p[1..], s);
      ConsRegroup(p, LinkSpans(s));
    } else {
      assert p + s == s;
    }
  }


  /**
   * The link pass replaces the leftmost [t](u) (t without ']', u without
   * ')', both non-empty) by an anchor whose href is u, unescaped at this stage.
   */
  lemma LinkSpansMatch(p: string, t: string, u: string, rest: string)
    requires '[' !in p && t != [] && ']' !in t && u != [] && ')' !in u
    ensures LinkSpans(p + "[" + t + "](" + u + ")" + rest) == p + Anchor(t, u) + LinkSpans(rest)
  {
    hide *;
    var w := "[" + t + "](" + u + ")" + rest;
    assert p + "[" + t + "](" + u + ")" + rest == p + w;
    LinkSpansCopies(p, w);
    LinkSpansOpening(t, u, rest);
  }

  lemma LinkSpansOpening(t: string, u: string, rest: string)
    requires t != [] && ']' !in t && u != [] && ')' !in u
    ensures LinkSpans("[" + t + "](" + u + ")" + rest) == Anchor(t, u) + LinkSpans(rest)
  {
    var w := "[" + t + "](" + u + ")" + rest;
    LinkAtOpening(t, u, rest);
    LinkPieces(t, u, rest);
    LinkSpansAt(w, |t| + 1, |t| + 3 + |u|, t, u, rest);
  }

  lemma LinkSpansAt(w: string, k: nat, e: nat, t: string, u: string, rest: string)
    requires LinkAt(w).Some? && LinkAt(w).value.0 == k && LinkAt(w).value.1 == e
    requires w[1..k] == t && w[k + 2..e] == u && w[e + 1..] == rest
    ensures LinkSpans(w) == Anchor(t, u) + LinkSpans(rest)
  {
    LinkSpansStep(w);
  }

  lemma LinkSpansStep(w: string)
    requires LinkAt(w).Some?
    ensures LinkSpans(w) == Anchor(w[1..LinkAt(w).value.0], w[LinkAt(w).value.0 + 2..LinkAt(w).value.1])
                            + LinkSpans(w[LinkAt(w).value.1 + 1..])
  {
  }

  /** A code match opens and closes with a backtick. */
  lemma CodeAtShape(s: string)
    requires CodeAt(s).Some?
    ensures s[0] == '`' && s[CodeAt(s).value] == '`'
  {
  }

  /** A bold match opens and closes with two stars. */
  lemma BoldAtShape(s: string)
    requires BoldAt(s).Some?
    ensures var k := BoldAt(s).value;
      s[0] == '*' && s[1] == '*' && s[k] == '*' && s[k + 1] == '*'
  {
  }

  /** An italic match opens and closes with a star that no further star follows. */
  lemma ItalicAtShape(s: string, afterStar: bool)
    requires ItalicAt(s, afterStar).Some?
    ensures var k := ItalicAt(s, afterStar).value;
      s[0] == '*' && s[k] == '*' && (k + 1 == |s| || s[k + 1] != '*')
  {
  }

  lemma CodeSpansNoMatch(s: string)
    requires s != [] && CodeAt(s).None?
    ensures CodeSpans(s) == [s[0]] + CodeSpans(s[1..])
  {
  }

  lemma BoldSpansNoMatch(s: string)
    requires s != [] && BoldAt(s).None?
    ensures BoldSpans(s) == [s[0]] + BoldSpans(s[1..])
  {
  }

  lemma ItalicSpansNoMatch(s: string, afterStar: bool)
    requires s != [] && ItalicAt(s, afterStar).None?
    ensures ItalicSpans(s, afterStar) == [s[0]] + ItalicSpans(s[1..], s[0] == '*')
  {
  }

  /** A link match opens with '[', has "](" after its text and closes with ')'. */
  lemma LinkAtShape(s: string)
    requires LinkAt(s).Some?
    ensures var (k, e) := LinkAt(s).value;
      s[0] == '[' && s[k] == ']' && s[k + 1] == '(' && s[e] == ')'
  {
  }

  lemma LinkSpansNoMatch(s: string)
    requires s != [] && LinkAt(s).None?
    ensures LinkSpans(s) == [s[0]] + LinkSpans(s[1..])
  {
  }

  lemma LinkPieces(t: string, u: string, rest: string)
    ensures var w := "[" + t + "](" + u + ")" + rest;
      w[1..|t| + 1] == t && w[|t| + 3..|t| + 3 + |u|] == u && w[|t| + 4 + |u|..] == rest
  {
  }

  lemma LinkAtOpening(t: string, u: string, rest: string)
    requires t != [] && ']' !in t && u != [] && ')' !in u
    ensures var m := LinkAt("[" + t + "](" + u + ")" + rest);
      m.Some? && m.value.0 == |t| + 1 && m.value.1 == |t| + 3 + |u|
  {
    var w := "[" + t + "](" + u + ")" + rest;
    var k := |t| + 1;
    assert w[0] == '[';
    assert w[1..] == t + "]" + ("(" + u + ")" + rest);
    IndexOfAfter(t, ']', "(" + u + ")" + rest);
    assert w[k + 1] == '(';
    assert w[k + 2..] == u + ")" + rest;
    IndexOfAfter(u, ')', rest);
  }

  /** Tabs in a match: those of its captures, the delimiters and tags hold none. */
  lemma CountWrapped(tagOpen: string, mid: string, tagClose: string, rest: string)
    requires '\t' !in tagOpen && '\t' !in tagClose
    ensures Count(tagOpen + mid + tagClose + rest, '\t') == Count(mid, '\t') + Count(rest, '\t')
  {
    CountAppend(tagOpen + mid + tagClose, rest, '\t');
    CountAppend(tagOpen + mid, tagClose, '\t');
    CountAppend(tagOpen, mid, '\t');
    CountAbsent(tagOpen, '\t');
    CountAbsent(tagClose, '\t');
  }

  /** s cut around a piece that starts with `opening` at 0 and `closing` at j. */
  lemma Delimited(s: string, opening: string, j: nat, closing: string)
    requires |opening| <= j && j + |closing| <= |s|
    requires s[..|opening|] == opening && s[j..j + |closing|] == closing
    ensures s == opening + s[|opening|..j] + closing + s[j + |closing|..]
  {
  }

  /** A code match in the text: backtick, capture, backtick, rest. */
  lemma CodeSource(s: string)
    requires CodeAt(s).Some?
    ensures var k := CodeAt(s).value; s == "`" + s[1..k] + "`" + s[k + 1..]
  {
    var k := CodeAt(s).value;
    CodeAtShape(s);
    assert s[..1] == "`" && s[k..k + 1] == "`";
    Delimited(s, "`", k, "`");
  }

  lemma BoldSource(s: string)
    requires BoldAt(s).Some?
    ensures var k := BoldAt(s).value; s == "**" + s[2..k] + "**" + s[k + 2..]
  {
    var k := BoldAt(s).value;
    BoldAtShape(s);
    assert s[..2] == "**" && s[k..k + 2] == "**";
    Delimited(s, "**", k, "**");
  }

  lemma ItalicSource(s: string, afterStar: bool)
    requires ItalicAt(s, afterStar).Some?
    ensures var k := ItalicAt(s, afterStar).value; s == "*" + s[1..k] + "*" + s[k + 1..]
  {
    var k := ItalicAt(s, afterStar).value;
    ItalicAtShape(s, afterStar);
    assert s[..1] == "*" && s[k..k + 1] == "*";
    Delimited(s, "*", k, "*");
  }

  lemma LinkSource(s: string)
    requires LinkAt(s).Some?
    ensures var (k, e) := LinkAt(s).value; s == "[" + s[1..k] + "](" + s[k + 2..e] + ")" + s[e + 1..]
  {
    LinkAtShape(s);
    var (k, e) := LinkAt(s).value;
    LinkCut(s, k, e);
  }

  /** s cut at a '[' at 0, "](" at k and ')' at e. */
  lemma LinkCut(s: string, k: nat, e: nat)
    requires 1 <= k && k + 2 <= e < |s|
    requires s[0] == '[' && s[k] == ']' && s[k + 1] == '(' && s[e] == ')'
    ensures s == "[" + s[1..k] + "](" + s[k + 2..e] + ")" + s[e + 1..]
  {
    assert s[..1] == "[" && s[k..k + 2] == "](";
    Delimited(s, "[", k, "](");
    var r := s[k + 2..];
    assert r[e - k - 2..e - k - 1] == ")";
    Delimited(r, [], e - k - 2, ")");
    assert r[0..e - k - 2] == s[k + 2..e] && r[e - k - 1..] == s[e + 1..];
    assert [] + s[k + 2..e] + ")" + s[e + 1..] == s[k + 2..e] + ")" + s[e + 1..];
  }





  lemma LinkTabs(text: string, url: string, rest: string, done: string)
    ensures Count("[" + text + "](" + url + ")" + rest, '\t') == Count(text, '\t') + Count(url, '\t') + Count(rest, '\t')
    ensures Count(Anchor(text, url) + done, '\t') == Count(text, '\t') + Count(url, '\t') + Count(done, '\t')
  {
    var tail := url + ")" + rest;
    assert "[" + text + "](" + url + ")" + rest == "[" + text + "](" + tail;
    CountWrapped("[", text, "](", tail);
    CountWrapped([], url, ")", rest);
    assert [] + url + ")" + rest == tail;
    CountAnchor(text, url, done);
  }

  lemma CountAnchor(text: string, url: string, rest: string)
    ensures Count(Anchor(text, url) + rest, '\t') == Count(text, '\t') + Count(url, '\t') + Count(rest, '\t')
  {
    var tail := text + "</a>" + rest;
    assert Anchor(text, url) + rest == "<a href=\"" + url + "\" target=\"_blank\">" + tail;
    CountWrapped("<a href=\"", url, "\" target=\"_blank\">", tail);
    CountWrapped([], text, "</a>", rest);
    assert [] + text + "</a>" + rest == tail;
  }

  lemma {:induction false} CodeSpansKeepsTabs(s: string)
    ensures Count(CodeSpans(s), '\t') == Count(s, '\t')
    decreases |s|
  {
    if s != [] {
      match CodeAt(s)
      case Some(k) =>
        CodeSpansStep(s);
        CodeSource(s);
        CodeSpansKeepsTabs(s[k + 1..]);
        CountWrapped("`", s[1..k], "`", s[k + 1..]);
        CountWrapped("<code>", s[1..k], "</code>", CodeSpans(s[k + 1..]));
      case None =>
        CodeSpansNoMatch(s);
        CodeSpansKeepsTabs(s[1..]);
        CountAppend([s[0]], CodeSpans(s[1..]), '\t');
    }
  }

  lemma {:induction false} BoldSpansKeepsTabs(s: string)
    ensures Count(BoldSpans(s), '\t') == Count(s, '\t')
    decreases |s|
  {
    if s != [] {
      match BoldAt(s)
      case Some(k) =>
        BoldSpansStep(s);
        BoldSource(s);
        BoldSpansKeepsTabs(s[k + 2..]);
        CountWrapped("**", s[2..k], "**", s[k + 2..]);
        CountWrapped("<strong>", s[2..k], "</strong>", BoldSpans(s[k + 2..]));
      case None =>
        BoldSpansNoMatch(s);
        BoldSpansKeepsTabs(s[1..]);
        CountAppend([s[0]], BoldSpans(s[1..]), '\t');
    }
  }

  lemma {:induction false} ItalicSpansKeepsTabs(s: string, afterStar: bool)
    ensures Count(ItalicSpans(s, afterStar), '\t') == Count(s, '\t')
    decreases |s|
  {
    if s != [] {
      match ItalicAt(s, afterStar)
      case Some(k) =>
        ItalicSpansStep(s, afterStar);
        ItalicSource(s, afterStar);
        ItalicSpansKeepsTabs(s[k + 1..], true);
        CountWrapped("*", s[1..k], "*", s[k + 1..]);
        CountWrapped("<em>", s[1..k], "</em>", ItalicSpans(s[k + 1..], true));
      case None =>
        ItalicSpansNoMatch(s, afterStar);
        ItalicSpansKeepsTabs(s[1..], s[0] == '*');
        CountAppend([s[0]], ItalicSpans(s[1..], s[0] == '*'), '\t');
    }
  }

  lemma {:induction false} LinkSpansKeepsTabs(s: string)
    ensures Count(LinkSpans(s), '\t') == Count(s, '\t')
    decreases |s|
  {
    if s != [] {
      match LinkAt(s)
      case Some((k, e)) =>
        var text, url, rest := s[1..k], s[k + 2..e], s[e + 1..];
        LinkSpansStep(s);
        LinkSource(s);
        LinkSpansKeepsTabs(rest);
        LinkTabs(text, url, rest, LinkSpans(rest));
      case None =>
        LinkSpansNoMatch(s);
        LinkSpansKeepsTabs(s[1..]);
        CountAppend([s[0]], LinkSpans(s[1..]), '\t');
    }
  }

  /**
   * escapeInline never lets a '<' or '>' through, not even in the tags its
   * own passes insert, and keeps every tab of its input.
   */
  lemma EscapeInlineSafe(s: string)
    ensures '<' !in EscapeInline(s) && '>' !in EscapeInline(s)
    ensures Count(EscapeInline(s), '\t') == Count(s, '\t')
  {
    var x := LinkSpans(ItalicSpans(BoldSpans(CodeSpans(s)), false));
    EscapeHtmlSafe(Some(x), false);
    CodeSpansKeepsTabs(s);
    BoldSpansKeepsTabs(CodeSpans(s));
    ItalicSpansKeepsTabs(BoldSpans(CodeSpans(s)), false);
    LinkSpansKeepsTabs(ItalicSpans(BoldSpans(CodeSpans(s)), false));
  }

  /** A lone backtick is left as it is by the code pass. */
  lemma CodeSpansLoneBacktick(p: string, q: string)
    requires '`' !in p && '`' !in q
    ensures CodeSpans(p + "`" + q) == p + "`" + q
  {
    var u := "`" + q;
    assert p + "`" + q == p + u;
    CodeSpansCopies(p, u);
    assert u[1..] == q;
    assert CodeAt(u) == None;
    CodeSpansCopies(q, []);
    assert q + [] == q;
  }

  /** Without a closing bracket the link pass changes nothing. */
  lemma {:induction false} LinkSpansUnclosed(s: string)
    requires ']' !in s
    ensures LinkSpans(s) == s
    decreases |s|
  {
    if s != [] {
      assert ']' !in s[1..];
      assert LinkAt(s) == None;
      LinkSpansUnclosed(s[1..]);
    }
  }

  /** Text with no backtick, star or bracket is only entity-escaped. */
  lemma EscapeInlinePlain(s: string)
    requires '`' !in s && '*' !in s && '[' !in s
    ensures EscapeInline(s) == EscapeHtml(Some(s), false)
  {
    CodeSpansCopies(s, []);
    BoldSpansCopies(s, []);
    ItalicSpansCopies(s, [], false);
    LinkSpansCopies(s, []);
    assert s + [] == s;
  }

  /** The final escape of escapeInline applied to text between two tags. */
  lemma EscapeWrapped(opening: string, closing: string, escOpening: string, escClosing: string, t: string)
    requires EscapeChars(opening, false) == escOpening && EscapeChars(closing, false) == escClosing
    ensures EscapeHtml(Some(opening + t + closing), false) == escOpening + EscapeHtml(Some(t), false) + escClosing
  {
    EscapeHtmlIsCharwise(opening + t + closing, false);
    EscapeHtmlIsCharwise(t, false);
    EscapeCharsAppend(opening + t, closing, false);
    EscapeCharsAppend(opening, t, false);
  }

  /** No character of s is c. */
  predicate Lacks(s: string, c: char) {
    forall i :: 0 <= i < |s| ==> s[i] != c
  }

  /** A character in none of three pieces is not in their concatenation. */
  lemma NotInWrapped(c: char, x: string, t: string, y: string)
    requires Lacks(x, c) && c !in t && Lacks(y, c)
    ensures c !in x + t + y
  {
    var w := x + t + y;
    forall i | 0 <= i < |w| ensures w[i] != c {
      if i < |x| {
        assert w[i] == x[i];
      } else if i < |x| + |t| {
        assert w[i] == t[i - |x|];
      } else {
        assert w[i] == y[i - |x| - |t|];
      }
    }
  }

  /** The bold delimiters hold no backtick; the tags no star and no bracket. */
  lemma BoldPiecesLack()
    ensures Lacks("**", '`')
    ensures Lacks("<strong>", '*') && Lacks("<strong>", '[')
    ensures Lacks("</strong>", '*') && Lacks("</strong>", '[')
  {
    var d, o, c := "**", "<strong>", "</strong>";
    assert Lacks(d, '`');
    assert Lacks(o, '*') && Lacks(o, '[');
    assert Lacks(c, '*') && Lacks(c, '[');
  }

  lemma CodePiecesLack()
    ensures Lacks("<code>", '*') && Lacks("<code>", '[')
    ensures Lacks("</code>", '*') && Lacks("</code>", '[')
  {
    var o, c := "<code>", "</code>";
    assert Lacks(o, '*') && Lacks(o, '[');
    assert Lacks(c, '*') && Lacks(c, '[');
  }

  /** Passes with nothing to match leave the text as it is. */
  lemma PassesIdentity(x: string)
    ensures '`' !in x ==> CodeSpans(x) == x
    ensures '*' !in x ==> BoldSpans(x) == x && ItalicSpans(x, false) == x
    ensures '[' !in x ==> LinkSpans(x) == x
  {
    assert x + [] == x;
    if '`' !in x { CodeSpansCopies(x, []); }
    if '*' !in x { BoldSpansCopies(x, []); ItalicSpansCopies(x, [], false); }
    if '[' !in x { LinkSpansCopies(x, []); }
  }

  lemma BoldWhole(t: string)
    requires t != [] && '*' !in t
    ensures BoldSpans("**" + t + "**") == "<strong>" + t + "</strong>"
  {
    BoldSpansMatch([], t, []);
    assert [] + "**" + t + "**" + [] == "**" + t + "**";
    assert [] + "<strong>" + t + "</strong>" + [] == "<strong>" + t + "</strong>";
  }

  lemma CodeWhole(t: string)
    requires t != [] && '`' !in t
    ensures CodeSpans("`" + t + "`") == "<code>" + t + "</code>"
  {
    CodeSpansMatch([], t, []);
    assert [] + "`" + t + "`" + [] == "`" + t + "`";
    assert [] + "<code>" + t + "</code>" + [] == "<code>" + t + "</code>";
  }

  /** escapeInline on a text that the code and bold passes turn into b and the other two keep. */
  lemma PassesChain(s: string, a: string, b: string)
    requires CodeSpans(s) == a && BoldSpans(a) == b
    requires ItalicSpans(b, false) == b && LinkSpans(b) == b
    ensures EscapeInline(s) == EscapeHtml(Some(b), false)
  {
  }

  /**
   * The tags escapeInline inserts are escaped by its own final pass:
   * "**t**" comes out as "&lt;strong&gt;" + t escaped + "&lt;/strong&gt;".
   */
  lemma EscapeInlineEscapesBold(t: string)
    requires t != [] && '*' !in t && '`' !in t && '[' !in t
    ensures EscapeInline("**" + t + "**") == "&lt;strong&gt;" + EscapeHtml(Some(t), false) + "&lt;/strong&gt;"
  {
    var w, b := "**" + t + "**", "<strong>" + t + "</strong>";
    assert EscapeInline(w) == EscapeHtml(Some(b), false) by {
      BoldPiecesLack();
      NotInWrapped('`', "**", t, "**");
      PassesIdentity(w);
      BoldWhole(t);
      NotInWrapped('*', "<strong>", t, "</strong>");
      NotInWrapped('[', "<strong>", t, "</strong>");
      PassesIdentity(b);
      PassesChain(w, w, b);
    }
    EscapedStrongTags();
    EscapeWrapped("<strong>", "</strong>", "&lt;strong&gt;", "&lt;/strong&gt;", t);
  }

  /** Likewise "`t`" comes out as "&lt;code&gt;" + t escaped + "&lt;/code&gt;". */
  lemma EscapeInlineEscapesCode(t: string)
    requires t != [] && '*' !in t && '`' !in t && '[' !in t
    ensures EscapeInline("`" + t + "`") == "&lt;code&gt;" + EscapeHtml(Some(t), false) + "&lt;/code&gt;"
  {
    var w, c := "`" + t + "`", "<code>" + t + "</code>";
    assert EscapeInline(w) == EscapeHtml(Some(c), false) by {
      CodeWhole(t);
      CodePiecesLack();
      NotInWrapped('*', "<code>", t, "</code>");
      NotInWrapped('[', "<code>", t, "</code>");
      PassesIdentity(c);
      PassesChain(w, c, c);
    }
    EscapedCodeTags();
    EscapeWrapped("<code>", "</code>", "&lt;code&gt;", "&lt;/code&gt;", t);
  }
}
