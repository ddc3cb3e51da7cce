/**
 * The few java.lang.String operations the renderer relies on, written out
 * over `seq<char>`: trim, startsWith, contains, toLowerCase (ASCII only),
 * replace of a single character, replace("\r\n", "\n") and split("\n", -1).
 */
module JavaText {

  /** Java's String.trim() strips every character whose code is at most U+0020. */
  predicate IsTrimmable(c: char) { c <= ' ' }

  /** The regex class `\s` of java.util.regex without UNICODE_CHARACTER_CLASS. */
  predicate IsRegexSpace(c: char) {
    c == ' ' || c == '\t' || c == '\n' || c == '\U{000B}' || c == '\U{000C}' || c == '\r'
  }

  /** Line terminators that the regex `.` refuses to match (no DOTALL, no UNIX_LINES). */
  predicate IsLineTerminator(c: char) {
    c == '\n' || c == '\r' || c == '\U{0085}' || c == '\U{2028}' || c == '\U{2029}'
  }

  function TrimStart(s: string): (r: string)
    ensures |r| <= |s|
    ensures r == [] || !IsTrimmable(r[0])
  {
    if s != [] && IsTrimmable(s[0]) then TrimStart(s[1..]) else s
  }

  /** TrimStart keeps a suffix of its input. */
  lemma {:induction false} TrimStartSuffix(s: string)
    ensures TrimStart(s) == s[|s| - |TrimStart(s)|..]
  {
    if s != [] && IsTrimmable(s[0]) {
      TrimStartSuffix(s[1..]);
    }
  }

  /** Everything TrimStart drops is trimmable. */
  lemma {:induction false} TrimStartDropsTrimmable(s: string)
    ensures forall k :: 0 <= k < |s| - |TrimStart(s)| ==> IsTrimmable(s[k])
  {
    if s != [] && IsTrimmable(s[0]) {
      TrimStartDropsTrimmable(s[1..]);
      forall k | 1 <= k < |s| - |TrimStart(s)| ensures IsTrimmable(s[k]) {
        assert s[k] == s[1..][k - 1];
      }
    }
  }

  function TrimEnd(s: string): (r: string)
    ensures |r| <= |s|
    ensures r == [] || !IsTrimmable(r[|r| - 1])
  {
    if s != [] && IsTrimmable(s[|s| - 1]) then TrimEnd(s[..|s| - 1]) else s
  }

  /** TrimEnd keeps a prefix of its input. */
  lemma {:induction false} TrimEndPrefix(s: string)
    ensures TrimEnd(s) == s[..|TrimEnd(s)|]
  {
    if s != [] && IsTrimmable(s[|s| - 1]) {
      TrimEndPrefix(s[..|s| - 1]);
    }
  }

  /** Everything TrimEnd drops is trimmable. */
  lemma {:induction false} TrimEndDropsTrimmable(s: string)
    ensures forall k :: |TrimEnd(s)| <= k < |s| ==> IsTrimmable(s[k])
  {
    if s != [] && IsTrimmable(s[|s| - 1]) {
      TrimEndDropsTrimmable(s[..|s| - 1]);
    }
  }

  /** String.trim(). */
  function Trim(s: string): string {
    TrimEnd(TrimStart(s))
  }

  /** trim() gives "" exactly when every character is trimmable. */
  lemma TrimEmpty(s: string)
    ensures Trim(s) == [] <==> forall k :: 0 <= k < |s| ==> IsTrimmable(s[k])
  {
    var a := TrimStart(s);
    TrimStartSuffix(s);
    TrimEndPrefix(a);
    TrimStartDropsTrimmable(s);
    TrimEndDropsTrimmable(a);
    if Trim(s) == [] {
      assert |a| == 0;
    } else {
      var t := Trim(s);
      assert t[0] == a[0] == s[|s| - |a|];
    }
  }

  /** When s starts with a visible character, trim() starts with that character. */
  lemma TrimKeepsVisibleHead(s: string)
    requires s != [] && !IsTrimmable(s[0])
    ensures Trim(s) != [] && Trim(s)[0] == s[0]
  {
    assert TrimStart(s) == s;
    TrimEndPrefix(s);
    TrimEndDropsTrimmable(s);
  }

  predicate StartsWith(s: string, prefix: string) {
    |prefix| <= |s| && s[..|prefix|] == prefix
  }

  /** String.contains: some position of s starts an occurrence of p. */
  predicate Contains(s: string, p: string)
    decreases |s|
  {
    StartsWith(s, p) || (s != [] && Contains(s[1..], p))
  }

  function ToLowerChar(c: char): char {
    if 'A' <= c <= 'Z' then (c as int + 32) as char else c
  }

  /** String.toLowerCase, restricted to the ASCII letters. */
  function ToLower(s: string): (r: string)
    ensures |r| == |s|
    ensures forall k :: 0 <= k < |s| ==> r[k] == ToLowerChar(s[k])
  {
    seq(|s|, k requires 0 <= k < |s| => ToLowerChar(s[k]))
  }

  /** Lower-casing the haystack and the needle keeps every occurrence. */
  lemma {:induction false} ContainsToLower(s: string, p: string)
    requires Contains(s, p)
    ensures Contains(ToLower(s), ToLower(p))
    decreases |s|
  {
    if StartsWith(s, p) {
      assert ToLower(s)[..|p|] == ToLower(p);
    } else {
      ContainsToLower(s[1..], p);
      assert ToLower(s)[1..] == ToLower(s[1..]);
    }
  }

  /** Index of the first c in s, or |s| when there is none. */
  function IndexOf(s: string, c: char): (k: nat)
    ensures k <= |s|
    ensures k < |s| ==> s[k] == c
  {
    if s == [] then 0 else if s[0] == c then 0 else 1 + IndexOf(s[1..], c)
  }

  /** IndexOf finds the first c: none comes before it. */
  lemma {:induction false} IndexOfFirst(s: string, c: char)
    ensures forall j :: 0 <= j < IndexOf(s, c) ==> s[j] != c
  {
    if s != [] && s[0] != c {
      IndexOfFirst(s[1..], c);
      forall j | 1 <= j < IndexOf(s, c) ensures s[j] != c {
        assert s[j] == s[1..][j - 1];
      }
    }
  }

  /** The first c of t + [c] + rest is the one after t. */
  lemma {:induction false} IndexOfAfter(t: string, c: char, rest: string)
    requires c !in t
    ensures IndexOf(t + [c] + rest, c) == |t|
  {
    var u := t + [c] + rest;
    if t == [] {
      assert u[0] == c;
    } else {
      assert u[0] == t[0];
      assert u[1..] == t[1..] + [c] + rest;
      IndexOfAfter(t[1..], c, rest);
    }
  }

  /** Number of occurrences of c in s. */
  function Count(s: string, c: char): nat {
    if s == [] then 0 else (if s[0] == c then 1 else 0) + Count(s[1..], c)
  }

  lemma {:induction false} CountAppend(a: string, b: string, c: char)
    ensures Count(a + b, c) == Count(a, c) + Count(b, c)
  {
    if a != [] {
      assert (a + b)[1..] == a[1..] + b;
      CountAppend(a[1..], b, c);
    } else {
      assert a + b == b;
    }
  }

  lemma {:induction false} CountAbsent(s: string, c: char)
    requires c !in s
    ensures Count(s, c) == 0
  {
    if s != [] {
      CountAbsent(s[1..], c);
    }
  }

  /** s with every c taken out. */
  function Drop(s: string, c: char): string {
    if s == [] then [] else (if s[0] == c then [] else [s[0]]) + Drop(s[1..], c)
  }

  lemma {:induction false} DropAppend(a: string, b: string, c: char)
    ensures Drop(a + b, c) == Drop(a, c) + Drop(b, c)
  {
    if a != [] {
      assert (a + b)[1..] == a[1..] + b;
      DropAppend(a[1..], b, c);
    } else {
      assert a + b == b;
    }
  }

  /** String.replace(CharSequence, CharSequence) with a one-character target. */
  function ReplaceChar(s: string, c: char, rep: string): string {
    if s == [] then [] else (if s[0] == c then rep else [s[0]]) + ReplaceChar(s[1..], c, rep)
  }

  lemma {:induction false} ReplaceCharAppend(a: string, b: string, c: char, rep: string)
    ensures ReplaceChar(a + b, c, rep) == ReplaceChar(a, c, rep) + ReplaceChar(b, c, rep)
  {
    if a != [] {
      assert (a + b)[1..] == a[1..] + b;
      ReplaceCharAppend(a[1..], b, c, rep);
    } else {
      assert a + b == b;
    }
  }

  lemma {:induction false} ReplaceCharAbsent(s: string, c: char, rep: string)
    requires c !in s
    ensures ReplaceChar(s, c, rep) == s
  {
    if s != [] {
      ReplaceCharAbsent(s[1..], c, rep);
    }
  }

  /** String.replace("\r\n", "\n"): left to right, non-overlapping. */
  function NormalizeCrlf(s: string): string
    decreases |s|
  {
    if |s| >= 2 && s[0] == '\r' && s[1] == '\n' then "\n" + NormalizeCrlf(s[2..])
    else if s == [] then []
    else [s[0]] + NormalizeCrlf(s[1..])
  }

  /**
   * Normalisation only ever removes carriage returns: with every '\r' dropped
   * the input and the output agree, the output is no longer than the input,
   * and text without '\r' is left as it is.
   */
  lemma NormalizeCrlfDropsOnlyCr(s: string)
    ensures Drop(NormalizeCrlf(s), '\r') == Drop(s, '\r')
    ensures |NormalizeCrlf(s)| <= |s|
    ensures '\r' !in s ==> NormalizeCrlf(s) == s
  {
    NormalizeCrlfDrop(s);
    NormalizeCrlfLength(s);
    if '\r' !in s {
      NormalizeCrlfNoCr(s);
    }
  }

  lemma {:induction false} NormalizeCrlfDrop(s: string)
    ensures Drop(NormalizeCrlf(s), '\r') == Drop(s, '\r')
    decreases |s|
  {
    if |s| >= 2 && s[0] == '\r' && s[1] == '\n' {
      NormalizeCrlfDrop(s[2..]);
      DropAppend("\n", NormalizeCrlf(s[2..]), '\r');
      assert s == "\r\n" + s[2..];
      DropAppend("\r\n", s[2..], '\r');
    } else if s != [] {
      NormalizeCrlfDrop(s[1..]);
      DropAppend([s[0]], NormalizeCrlf(s[1..]), '\r');
    }
  }

  lemma {:induction false} NormalizeCrlfLength(s: string)
    ensures |NormalizeCrlf(s)| <= |s|
    decreases |s|
  {
    if |s| >= 2 && s[0] == '\r' && s[1] == '\n' {
      NormalizeCrlfLength(s[2..]);
    } else if s != [] {
      NormalizeCrlfLength(s[1..]);
    }
  }

  lemma {:induction false} NormalizeCrlfNoCr(s: string)
    requires '\r' !in s
    ensures NormalizeCrlf(s) == s
    decreases |s|
  {
    if s != [] {
      NormalizeCrlfNoCr(s[1..]);
      assert s == [s[0]] + s[1..];
    }
  }

  /** One pass does not remove every CRLF: "\r\r\n" becomes "\r\n". */
  lemma NormalizeCrlfNotIdempotent()
    ensures NormalizeCrlf("\r\r\n") == "\r\n"
    ensures NormalizeCrlf(NormalizeCrlf("\r\r\n")) != NormalizeCrlf("\r\r\n")
  {
    assert "\r\r\n"[1..] == "\r\n";
    assert "\r\n"[2..] == "";
  }

  /** String.split("\n", -1): the pieces between newlines, trailing empty piece kept. */
  function SplitLines(s: string): (lines: seq<string>)
    ensures |lines| >= 1
    decreases |s|
  {
    var k := IndexOf(s, '\n');
    if k == |s| then [s] else [s[..k]] + SplitLines(s[k + 1..])
  }

  /** String.join("\n", lines), the inverse of SplitLines. */
  function JoinLines(lines: seq<string>): string
    decreases |lines|
  {
    if lines == [] then ""
    else if |lines| == 1 then lines[0]
    else lines[0] + "\n" + JoinLines(lines[1..])
  }

  /**
   * split("\n", -1) loses nothing: joining the pieces with "\n" gives the
   * text back, no piece holds a newline, and there is one piece more than
   * there are newlines.
   */
  lemma {:induction false} SplitLinesJoin(s: string)
    ensures JoinLines(SplitLines(s)) == s
    ensures forall k :: 0 <= k < |SplitLines(s)| ==> '\n' !in SplitLines(s)[k]
    ensures |SplitLines(s)| == Count(s, '\n') + 1
    decreases |s|
  {
    var k := IndexOf(s, '\n');
    IndexOfFirst(s, '\n');
    if k == |s| {
      CountAbsent(s, '\n');
    } else {
      var rest := s[k + 1..];
      SplitLinesJoin(rest);
      SplitAtNewline(s, k);
      var ls := SplitLines(s);
      assert ls == [s[..k]] + SplitLines(rest);
      forall j | 0 <= j < |ls| ensures '\n' !in ls[j] {
        if j > 0 {
          assert ls[j] == SplitLines(rest)[j - 1];
        }
      }
    }
  }

  /** The piece before the first newline, the newline and the rest. */
  lemma SplitAtNewline(s: string, k: nat)
    requires k == IndexOf(s, '\n') < |s|
    ensures s == s[..k] + "\n" + s[k + 1..]
    ensures Count(s, '\n') == 1 + Count(s[k + 1..], '\n')
  {
    SplitAround(s, k);
    IndexOfFirst(s, '\n');
    CountFromFirst(s, k, '\n');
  }

  lemma SplitAround(s: string, k: nat)
    requires k < |s|
    ensures s == s[..k] + [s[k]] + s[k + 1..]
  {
    assert s[..k + 1] == s[..k] + [s[k]];
    assert s == s[..k + 1] + s[k + 1..];
  }

  /** Counting from the first occurrence of c. */
  lemma {:induction false} CountFromFirst(s: string, k: nat, c: char)
    requires k < |s| && s[k] == c
    requires forall j :: 0 <= j < k ==> s[j] != c
    ensures Count(s, c) == 1 + Count(s[k + 1..], c)
  {
    if k > 0 {
      CountFromFirst(s[1..], k - 1, c);
      assert s[1..][k..] == s[k + 1..];
    }
  }
}
