/**
 * DocsController.escapeHtml: entity escaping of '&', '<' and '>' by a chain
 * of String.replace calls, '&' first, with tabs optionally widened to four
 * spaces afterwards.
 */
module HtmlEscape {
  import opened Wrappers
  import opened JavaText

  /** escapeHtml(s, replaceSpaces); the one-argument overload passes true. */
  function EscapeHtml(s: Option<string>, replaceSpaces: bool): string {
    match s
    case None => ""
    case Some(x) =>
      var out := ReplaceChar(ReplaceChar(ReplaceChar(x, '&', "&amp;"), '<', "&lt;"), '>', "&gt;");
      if replaceSpaces then ReplaceChar(out, '\t', "    ") else out
  }

  /** What escaping makes of a single character. */
  function EscapeChar(c: char, replaceSpaces: bool): string {
    if c == '&' then "&amp;"
    else if c == '<' then "&lt;"
    else if c == '>' then "&gt;"
    else if c == '\t' && replaceSpaces then "    "
    else [c]
  }

  /** Each character of s replaced by its image under f, in order. */
  function FlatMap(s: string, f: char -> string): string {
    if s == [] then [] else f(s[0]) + FlatMap(s[1..], f)
  }

  lemma {:induction false} FlatMapAppend(a: string, b: string, f: char -> string)
    ensures FlatMap(a + b, f) == FlatMap(a, f) + FlatMap(b, f)
  {
    if a != [] {
      assert (a + b)[0] == a[0];
      assert (a + b)[1..] == a[1..] + b;
      FlatMapAppend(a[1..], b, f);
    } else {
      assert a + b == b;
    }
  }

  /** Reference definition: every character escaped on its own, in order. */
  function EscapeChars(s: string, replaceSpaces: bool): string {
    if s == [] then [] else EscapeChar(s[0], replaceSpaces) + EscapeChars(s[1..], replaceSpaces)
  }

  lemma {:induction false} EscapeCharsFlatMap(s: string, replaceSpaces: bool)
    ensures EscapeChars(s, replaceSpaces) == FlatMap(s, c => EscapeChar(c, replaceSpaces))
  {
    if s != [] {
      EscapeCharsFlatMap(s[1..], replaceSpaces);
    }
  }

  lemma EscapeCharsAppend(a: string, b: string, replaceSpaces: bool)
    ensures EscapeChars(a + b, replaceSpaces) == EscapeChars(a, replaceSpaces) + EscapeChars(b, replaceSpaces)
  {
    EscapeCharsFlatMap(a + b, replaceSpaces);
    EscapeCharsFlatMap(a, replaceSpaces);
    EscapeCharsFlatMap(b, replaceSpaces);
    FlatMapAppend(a, b, c => EscapeChar(c, replaceSpaces));
  }

  /** Text free of the four special characters escapes to itself. */
  lemma {:induction false} EscapeCharsPlain(s: string, replaceSpaces: bool)
    requires '&' !in s && '<' !in s && '>' !in s
    requires replaceSpaces ==> '\t' !in s
    ensures EscapeChars(s, replaceSpaces) == s
  {
    if s != [] {
      EscapeCharsPlain(s[1..], replaceSpaces);
    }
  }

  lemma ReplaceCharSingle(c: char, x: char, rep: string)
    ensures ReplaceChar([c], x, rep) == if c == x then rep else [c]
  {
    assert [c][1..] == [];
  }

  /** The replace chain on one character. */
  lemma EscapeOneChar(c: char, replaceSpaces: bool)
    ensures EscapeHtml(Some([c]), replaceSpaces) == EscapeChar(c, replaceSpaces)
  {
    if c == '&' {
      EscapeOneAmp(replaceSpaces);
    } else if c == '<' {
      EscapeOneLt(replaceSpaces);
    } else if c == '>' {
      EscapeOneGt(replaceSpaces);
    } else {
      EscapeOneOther(c, replaceSpaces);
    }
  }

  lemma EscapeOneAmp(replaceSpaces: bool)
    ensures EscapeHtml(Some(['&']), replaceSpaces) == "&amp;"
  {
    ReplaceCharSingle('&', '&', "&amp;");
    AmpSurvives();
  }

  /** The later replacements leave "&amp;" alone. */
  lemma AmpSurvives()
    ensures ReplaceChar("&amp;", '<', "&lt;") == "&amp;"
    ensures ReplaceChar("&amp;", '>', "&gt;") == "&amp;"
    ensures ReplaceChar("&amp;", '\t', "    ") == "&amp;"
  {
    var e := "&amp;";
    assert EntityText(e);
    EntitySurvives(e, '<', "&lt;");
    EntitySurvives(e, '>', "&gt;");
    EntitySurvives(e, '\t', "    ");
  }

  /** Only '&', ';' and lower-case letters: what the entities are made of. */
  predicate EntityText(s: string) {
    forall k :: 0 <= k < |s| ==> s[k] == '&' || s[k] == ';' || 'a' <= s[k] <= 'z'
  }

  /** Replacing '<', '>' or a tab leaves entity text alone. */
  lemma {:induction false} EntitySurvives(s: string, c: char, rep: string)
    requires EntityText(s) && (c == '<' || c == '>' || c == '\t')
    ensures ReplaceChar(s, c, rep) == s
  {
    if s != [] {
      EntitySurvives(s[1..], c, rep);
      assert s == [s[0]] + s[1..];
    }
  }

  lemma EscapeOneLt(replaceSpaces: bool)
    ensures EscapeHtml(Some(['<']), replaceSpaces) == "&lt;"
  {
    ReplaceCharSingle('<', '&', "&amp;");
    ReplaceCharSingle('<', '<', "&lt;");
    LtSurvives();
  }

  /** The later replacements leave "&lt;" alone. */
  lemma LtSurvives()
    ensures ReplaceChar("&lt;", '>', "&gt;") == "&lt;"
    ensures ReplaceChar("&lt;", '\t', "    ") == "&lt;"
  {
    var e := "&lt;";
    assert EntityText(e);
    EntitySurvives(e, '>', "&gt;");
    EntitySurvives(e, '\t', "    ");
  }

  lemma EscapeOneGt(replaceSpaces: bool)
    ensures EscapeHtml(Some(['>']), replaceSpaces) == "&gt;"
  {
    ReplaceCharSingle('>', '&', "&amp;");
    ReplaceCharSingle('>', '<', "&lt;");
    ReplaceCharSingle('>', '>', "&gt;");
    var e := "&gt;";
    assert EntityText(e);
    EntitySurvives(e, '\t', "    ");
  }

  lemma EscapeOneOther(c: char, replaceSpaces: bool)
    requires c != '&' && c != '<' && c != '>'
    ensures EscapeHtml(Some([c]), replaceSpaces) == if c == '\t' && replaceSpaces then "    " else [c]
  {
    ReplaceCharSingle(c, '&', "&amp;");
    ReplaceCharSingle(c, '<', "&lt;");
    ReplaceCharSingle(c, '>', "&gt;");
    ReplaceCharSingle(c, '\t', "    ");
  }

  /**
   * Because '&' is replaced before '<' and '>', the replace chain equals
   * escaping character by character: no entity it inserts is escaped again.
   */
  lemma {:induction false} EscapeHtmlIsCharwise(s: string, replaceSpaces: bool)
    ensures EscapeHtml(Some(s), replaceSpaces) == EscapeChars(s, replaceSpaces)
  {
    if s != [] {
      var c, t := s[0], s[1..];
      assert s == [c] + t;
      ReplaceCharAppend([c], t, '&', "&amp;");
      var a1, a2 := ReplaceChar([c], '&', "&amp;"), ReplaceChar(t, '&', "&amp;");
      ReplaceCharAppend(a1, a2, '<', "&lt;");
      var b1, b2 := ReplaceChar(a1, '<', "&lt;"), ReplaceChar(a2, '<', "&lt;");
      ReplaceCharAppend(b1, b2, '>', "&gt;");
      var c1, c2 := ReplaceChar(b1, '>', "&gt;"), ReplaceChar(b2, '>', "&gt;");
      ReplaceCharAppend(c1, c2, '\t', "    ");
      EscapeOneChar(c, replaceSpaces);
      EscapeHtmlIsCharwise(t, replaceSpaces);
    }
  }

  /** No output of the escaper holds a '<' or a '>'. */
  lemma EscapeCharsNoAngle(s: string, replaceSpaces: bool)
    ensures '<' !in EscapeChars(s, replaceSpaces) && '>' !in EscapeChars(s, replaceSpaces)
    ensures replaceSpaces ==> '\t' !in EscapeChars(s, replaceSpaces)
    ensures !replaceSpaces ==> Count(EscapeChars(s, replaceSpaces), '\t') == Count(s, '\t')
  {
    var f := c => EscapeChar(c, replaceSpaces);
    EscapeCharsFlatMap(s, replaceSpaces);
    EscapeCharAvoids(replaceSpaces);
    FlatMapAvoids(s, f, '<');
    FlatMapAvoids(s, f, '>');
    if replaceSpaces {
      FlatMapAvoids(s, f, '\t');
    } else {
      FlatMapCount(s, f, '\t');
    }
  }

  /** The one-character escapes: no angle bracket, and a tab only where a tab was kept. */
  lemma EscapeCharAvoids(replaceSpaces: bool)
    ensures forall c :: '<' !in EscapeChar(c, replaceSpaces) && '>' !in EscapeChar(c, replaceSpaces)
    ensures replaceSpaces ==> forall c :: '\t' !in EscapeChar(c, replaceSpaces)
    ensures !replaceSpaces ==> forall c :: Count(EscapeChar(c, replaceSpaces), '\t') == (if c == '\t' then 1 else 0)
  {
    forall c ensures '<' !in EscapeChar(c, replaceSpaces) && '>' !in EscapeChar(c, replaceSpaces)
      && (replaceSpaces ==> '\t' !in EscapeChar(c, replaceSpaces))
      && (!replaceSpaces ==> Count(EscapeChar(c, replaceSpaces), '\t') == (if c == '\t' then 1 else 0))
    {
      var e := EscapeChar(c, replaceSpaces);
      if c == '&' || c == '<' || c == '>' {
        assert EntityText(e);
        CountAbsent(e, '\t');
      } else if c == '\t' && replaceSpaces {
        assert e == "    ";
      } else {
        assert e == [c] && e[1..] == [];
      }
    }
  }

  lemma {:induction false} FlatMapAvoids(s: string, f: char -> string, x: char)
    requires forall c :: x !in f(c)
    ensures x !in FlatMap(s, f)
  {
    if s != [] {
      FlatMapAvoids(s[1..], f, x);
    }
  }

  lemma {:induction false} FlatMapCount(s: string, f: char -> string, x: char)
    requires forall c :: Count(f(c), x) == (if c == x then 1 else 0)
    ensures Count(FlatMap(s, f), x) == Count(s, x)
  {
    if s != [] {
      FlatMapCount(s[1..], f, x);
      CountAppend(f(s[0]), FlatMap(s[1..], f), x);
    }
  }

  /**
   * escapeHtml's promises: null gives "", no '<' or '>' survives, with
   * replaceSpaces no tab survives, and without it every tab is kept.
   */
  lemma EscapeHtmlSafe(s: Option<string>, replaceSpaces: bool)
    ensures s.None? ==> EscapeHtml(s, replaceSpaces) == ""
    ensures '<' !in EscapeHtml(s, replaceSpaces) && '>' !in EscapeHtml(s, replaceSpaces)
    ensures replaceSpaces ==> '\t' !in EscapeHtml(s, replaceSpaces)
    ensures s.Some? && !replaceSpaces ==> Count(EscapeHtml(s, replaceSpaces), '\t') == Count(s.value, '\t')
  {
    if s.Some? {
      EscapeHtmlIsCharwise(s.value, replaceSpaces);
      EscapeCharsNoAngle(s.value, replaceSpaces);
    }
  }

  /** Decoding of the three entities escapeHtml produces; any other text is copied. */
  function Unescape(s: string): string
    decreases |s|
  {
    if StartsWith(s, "&amp;") then "&" + Unescape(s[5..])
    else if StartsWith(s, "&lt;") then "<" + Unescape(s[4..])
    else if StartsWith(s, "&gt;") then ">" + Unescape(s[4..])
    else if s == [] then []
    else [s[0]] + Unescape(s[1..])
  }

  /** Without tab widening escaping loses nothing: decoding gives the input back. */
  lemma {:induction false} EscapeHtmlInvertible(s: string)
    ensures Unescape(EscapeHtml(Some(s), false)) == s
  {
    EscapeHtmlIsCharwise(s, false);
    UnescapeEscapeChars(s);
  }

  lemma {:induction false} UnescapeEscapeChars(s: string)
    ensures Unescape(EscapeChars(s, false)) == s
  {
    if s != [] {
      UnescapeEscapeChars(s[1..]);
      UnescapeOne(s[0], EscapeChars(s[1..], false));
      assert s == [s[0]] + s[1..];
    }
  }

  /** Decoding undoes the escape of the first character and goes on with the rest. */
  lemma UnescapeOne(c: char, rest: string)
    ensures Unescape(EscapeChar(c, false) + rest) == [c] + Unescape(rest)
  {
    if c == '&' {
      UnescapeAmp(rest);
    } else if c == '<' || c == '>' {
      UnescapeAngles(rest);
    } else {
      UnescapeOther(c, rest);
    }
  }

  lemma UnescapeAmp(rest: string)
    ensures Unescape("&amp;" + rest) == "&" + Unescape(rest)
  {
    var t := "&amp;" + rest;
    assert t[..5] == "&amp;" && t[5..] == rest;
  }

  lemma UnescapeAngles(rest: string)
    ensures Unescape("&lt;" + rest) == "<" + Unescape(rest)
    ensures Unescape("&gt;" + rest) == ">" + Unescape(rest)
  {
    var lt, gt := "&lt;" + rest, "&gt;" + rest;
    assert lt[1] == 'l' && gt[1] == 'g';
    assert lt[..4] == "&lt;" && lt[4..] == rest;
    assert gt[..4] == "&gt;" && gt[4..] == rest;
  }

  lemma UnescapeOther(c: char, rest: string)
    requires c != '&'
    ensures Unescape([c] + rest) == [c] + Unescape(rest)
  {
    var t := [c] + rest;
    assert t[0] == c && t[1..] == rest;
  }

  /** Escaping never shortens the text, and lengthens it, leaving an '&', whenever it escapes something. */
  lemma {:induction false} EscapeCharsGrows(s: string)
    ensures |EscapeChars(s, false)| >= |s|
    ensures ('&' in s || '<' in s || '>' in s) ==> |EscapeChars(s, false)| > |s| && '&' in EscapeChars(s, false)
  {
    if s != [] {
      EscapeCharsGrows(s[1..]);
      var e := EscapeChar(s[0], false);
      if s[0] == '&' || s[0] == '<' || s[0] == '>' {
        assert e[0] == '&';
        assert (e + EscapeChars(s[1..], false))[0] == '&';
      } else if '&' in s || '<' in s || '>' in s {
        assert '&' in s[1..] || '<' in s[1..] || '>' in s[1..];
        var r := EscapeChars(s[1..], false);
        var k :| 0 <= k < |r| && r[k] == '&';
        assert (e + r)[|e| + k] == '&';
      }
    }
  }

  /**
   * escapeHtml(x, false) is not idempotent: applying it twice gives the same
   * text as once exactly when there was nothing to escape, because the '&'
   * of every inserted entity is escaped again.
   */
  lemma EscapeHtmlIdempotentIff(s: string)
    ensures EscapeHtml(Some(EscapeHtml(Some(s), false)), false) == EscapeHtml(Some(s), false)
        <==> '&' !in s && '<' !in s && '>' !in s
  {
    var e := EscapeHtml(Some(s), false);
    EscapeHtmlIsCharwise(s, false);
    EscapeHtmlIsCharwise(e, false);
    EscapeCharsGrows(s);
    EscapeCharsGrows(e);
    if '&' !in s && '<' !in s && '>' !in s {
      EscapeCharsPlain(s, false);
    }
  }

  /** Lower-case letters and '/': what the names of the inserted tags are made of. */
  predicate TagName(s: string) {
    forall k :: 0 <= k < |s| ==> 'a' <= s[k] <= 'z' || s[k] == '/'
  }

  lemma {:induction false} EscapeCharsTagName(name: string)
    requires TagName(name)
    ensures EscapeChars(name, false) == name
  {
    if name != [] {
      EscapeCharsTagName(name[1..]);
      assert EscapeChar(name[0], false) == [name[0]];
      assert name == [name[0]] + name[1..];
    }
  }

  lemma EscapeAngles()
    ensures EscapeChars("<", false) == "&lt;" && EscapeChars(">", false) == "&gt;"
  {
    assert "<"[1..] == [] && ">"[1..] == [];
  }

  /** A tag around a plain name escapes to the name between "&lt;" and "&gt;". */
  lemma EscapeTag(name: string)
    requires TagName(name)
    ensures EscapeChars("<" + name + ">", false) == "&lt;" + name + "&gt;"
  {
    EscapeCharsTagName(name);
    EscapeAngles();
    EscapeCharsAppend("<" + name, ">", false);
    EscapeCharsAppend("<", name, false);
  }

  /** The tags escapeInline inserts, as its final escape leaves them. */
  lemma EscapedStrongTags()
    ensures EscapeChars("<strong>", false) == "&lt;strong&gt;"
    ensures EscapeChars("</strong>", false) == "&lt;/strong&gt;"
  {
    EscapedStrongOpen();
    EscapedStrongClose();
  }

  lemma EscapedCodeTags()
    ensures EscapeChars("<code>", false) == "&lt;code&gt;"
    ensures EscapeChars("</code>", false) == "&lt;/code&gt;"
  {
    EscapedCodeOpen();
    EscapedCodeClose();
  }

  lemma EscapedStrongOpen()
    ensures EscapeChars("<strong>", false) == "&lt;strong&gt;"
  {
    var name := "strong";
    assert TagName(name);
    hide *;
    EscapeTag(name);
    assert "<" + name + ">" == "<strong>" && "&lt;" + name + "&gt;" == "&lt;strong&gt;";
  }


  lemma EscapedStrongClose()
    ensures EscapeChars("</strong>", false) == "&lt;/strong&gt;"
  {
    var name := "/strong";
    assert TagName(name);
    hide *;
    EscapeTag(name);
    assert "<" + name + ">" == "</strong>" && "&lt;" + name + "&gt;" == "&lt;/strong&gt;";
  }


  lemma EscapedCodeOpen()
    ensures EscapeChars("<code>", false) == "&lt;code&gt;"
  {
    var name := "code";
    assert TagName(name);
    hide *;
    EscapeTag(name);
    assert "<" + name + ">" == "<code>" && "&lt;" + name + "&gt;" == "&lt;code&gt;";
  }


  lemma EscapedCodeClose()
    ensures EscapeChars("</code>", false) == "&lt;/code&gt;"
  {
    var name := "/code";
    assert TagName(name);
    hide *;
    EscapeTag(name);
    assert "<" + name + ">" == "</code>" && "&lt;" + name + "&gt;" == "&lt;/code&gt;";
  }

}
