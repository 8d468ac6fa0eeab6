/**
 * The board analyser's markdown renderer: a per-line rewriter (headings,
 * `**bold**` and `*italic*` substitution, list items, paragraphs) and the loop
 * that splits the text on line feeds and wraps each run of list lines in
 * `<ul>` ... `</ul>`. Nothing is escaped: the produced text is markup as is.
 */
module Markdown {
  import opened Types
  import opened Text

  /** No regular-expression `.` stops inside `s`. */
  predicate SingleLine(s: string) {
    forall k | 0 <= k < |s| :: !IsLineTerminator(s[k])
  }

  function StarCount(s: string): nat
    decreases |s|
  {
    if s == [] then 0 else (if s[0] == '*' then 1 else 0) + StarCount(s[1..])
  }

  lemma {:induction false} StarCountAppend(a: string, b: string)
    ensures StarCount(a + b) == StarCount(a) + StarCount(b)
    decreases |a|
  {
    if a == [] {
      assert a + b == b;
    } else {
      assert (a + b)[1..] == a[1..] + b;
      StarCountAppend(a[1..], b);
    }
  }

  lemma {:induction false} StarFreeCount(a: string)
    requires '*' !in a
    ensures StarCount(a) == 0
    decreases |a|
  {
    if a != [] {
      StarFreeCount(a[1..]);
    }
  }

  // ---------------------------------------------------------------------------
  // Non-greedy delimiter search: where the lazy `(.*?)` of a pattern stops.
  // ---------------------------------------------------------------------------

  /** The first `*` of `t`, provided no line terminator comes before it. */
  function FindStar(t: string): (r: Option<nat>)
    ensures r.Some? ==> r.value < |t| && t[r.value] == '*'
    decreases |t|
  {
    if t == [] then None
    else if t[0] == '*' then Some(0)
    else if IsLineTerminator(t[0]) then None
    else
      match FindStar(t[1..])
      case Some(j) => Some(j + 1)
      case None => None
  }

  /** The first `**` of `t`, provided no line terminator comes before it. */
  function FindDoubleStar(t: string): (r: Option<nat>)
    ensures r.Some? ==> r.value + 2 <= |t| && t[r.value] == '*' && t[r.value + 1] == '*'
    decreases |t|
  {
    if |t| < 2 then None
    else if t[0] == '*' && t[1] == '*' then Some(0)
    else if IsLineTerminator(t[0]) then None
    else
      match FindDoubleStar(t[1..])
      case Some(j) => Some(j + 1)
      case None => None
  }

  /**
   * `FindStar` finds the first closing `*` on the line: nothing before it is a
   * star or a line terminator, and it finds none only when every star of `t`
   * lies behind a line terminator.
   */
  lemma {:induction false} FindStarFirst(t: string)
    ensures FindStar(t).Some? ==> '*' !in t[..FindStar(t).value] && SingleLine(t[..FindStar(t).value])
    ensures FindStar(t).None? ==> forall k | 0 <= k < |t| && t[k] == '*' :: !SingleLine(t[..k])
    ensures FindStar(t).None? && SingleLine(t) ==> '*' !in t
    decreases |t|
  {
    if t != [] && t[0] != '*' && IsLineTerminator(t[0]) {
      forall k | 0 <= k < |t| && t[k] == '*'
        ensures !SingleLine(t[..k])
      {
        assert t[..k][0] == t[0];
      }
    }
    if t != [] && t[0] != '*' && !IsLineTerminator(t[0]) {
      FindStarFirst(t[1..]);
      assert t == [t[0]] + t[1..];
      if FindStar(t).Some? {
        var j := FindStar(t).value;
        assert t[..j] == [t[0]] + t[1..][..j - 1];
      } else {
        forall k | 0 <= k < |t| && t[k] == '*'
          ensures !SingleLine(t[..k])
        {
          if k > 0 {
            assert t[1..][k - 1] == '*';
            var m :| 0 <= m < k - 1 && IsLineTerminator(t[1..][..k - 1][m]);
            assert t[..k][m + 1] == t[1..][..k - 1][m];
          }
        }
      }
    }
  }

  /**
   * `FindDoubleStar` finds the first `**` on the line: no `**` and no line
   * terminator comes before it, and it finds none only when every `**` of `t`
   * lies behind a line terminator.
   */
  lemma {:induction false} FindDoubleStarFirst(t: string)
    ensures FindDoubleStar(t).Some? ==> SingleLine(t[..FindDoubleStar(t).value])
    ensures FindDoubleStar(t).Some? ==>
              forall k | 0 <= k < FindDoubleStar(t).value :: !(t[k] == '*' && t[k + 1] == '*')
    ensures FindDoubleStar(t).None? ==>
              forall k | 0 <= k < |t| - 1 && t[k] == '*' && t[k + 1] == '*' :: !SingleLine(t[..k])
    ensures FindDoubleStar(t).None? && SingleLine(t) ==>
              forall k | 0 <= k < |t| - 1 :: !(t[k] == '*' && t[k + 1] == '*')
    decreases |t|
  {
    if |t| >= 2 && !(t[0] == '*' && t[1] == '*') && IsLineTerminator(t[0]) {
      forall k | 0 <= k < |t| - 1 && t[k] == '*' && t[k + 1] == '*'
        ensures !SingleLine(t[..k])
      {
        assert t[..k][0] == t[0];
      }
    }
    if |t| >= 2 && !(t[0] == '*' && t[1] == '*') && !IsLineTerminator(t[0]) {
      FindDoubleStarFirst(t[1..]);
      if FindDoubleStar(t).Some? {
        var j := FindDoubleStar(t).value;
        assert t[..j] == [t[0]] + t[1..][..j - 1];
        forall k | 1 <= k < j ensures !(t[k] == '*' && t[k + 1] == '*') {
          assert t[k] == t[1..][k - 1] && t[k + 1] == t[1..][k];
        }
      } else {
        forall k | 0 <= k < |t| - 1 && t[k] == '*' && t[k + 1] == '*'
          ensures !SingleLine(t[..k])
        {
          if k > 0 {
            assert t[1..][k - 1] == '*' && t[1..][k] == '*';
            var m :| 0 <= m < k - 1 && IsLineTerminator(t[1..][..k - 1][m]);
            assert t[..k][m + 1] == t[1..][..k - 1][m];
          }
        }
        if SingleLine(t) {
          assert SingleLine(t[1..]);
          forall k | 1 <= k < |t| - 1 ensures !(t[k] == '*' && t[k + 1] == '*') {
            assert t[k] == t[1..][k - 1] && t[k + 1] == t[1..][k];
          }
        }
      }
    }
  }

  // ---------------------------------------------------------------------------
  // The two global replacements: `**...**` to strong, then `*...*` to em.
  // A match is tried at each position from left to right; after a match the
  // scan resumes behind it, after a failed attempt one position further on.
  // ---------------------------------------------------------------------------

  // Global non-greedy replacement of `**x**` by `<strong>x</strong>`.
  function ReplaceBold(s: string): string
    decreases |s|
  {
    if |s| < 2 then s
    else if s[0] == '*' && s[1] == '*' then
      match FindDoubleStar(s[2..])
      case Some(j) => "<strong>" + s[2..2 + j] + "</strong>" + ReplaceBold(s[j + 4..])
      case None => [s[0]] + ReplaceBold(s[1..])
    else [s[0]] + ReplaceBold(s[1..])
  }

  // Global non-greedy replacement of `*x*` by `<em>x</em>`.
  function ReplaceItalic(s: string): string
    decreases |s|
  {
    if s == [] then s
    else if s[0] == '*' then
      match FindStar(s[1..])
      case Some(j) => "<em>" + s[1..1 + j] + "</em>" + ReplaceItalic(s[j + 2..])
      case None => [s[0]] + ReplaceItalic(s[1..])
    else [s[0]] + ReplaceItalic(s[1..])
  }

  /** Bold first, then italic, as the line rewriter applies them. */
  function Emphasize(line: string): string {
    ReplaceItalic(ReplaceBold(line))
  }

  /** Text without a `*` passes through both replacements unchanged. */
  lemma {:induction false} StarFreeUnchanged(s: string)
    requires '*' !in s
    ensures ReplaceBold(s) == s && ReplaceItalic(s) == s && Emphasize(s) == s
    decreases |s|
  {
    if s != [] {
      assert s == [s[0]] + s[1..];
      StarFreeUnchanged(s[1..]);
    }
  }

  /** `**x**` on one line becomes `<strong>x</strong>`, and italic leaves it alone. */
  lemma BoldWraps(x: string)
    requires '*' !in x && SingleLine(x)
    ensures Emphasize("**" + x + "**") == "<strong>" + x + "</strong>"
  {
    var strong := "<strong>" + x + "</strong>";
    BoldOfWrapped(x);
    assert Emphasize("**" + x + "**") == ReplaceItalic(strong);
    StrongStarFree(x);
    StarFreeUnchanged(strong);
  }

  lemma StrongStarFree(x: string)
    requires '*' !in x
    ensures '*' !in "<strong>" + x + "</strong>"
  {
    assert '*' !in "<strong>" && '*' !in "</strong>";
  }

  /** Bold substitution pairs the two `**` around a star-free line. */
  lemma BoldOfWrapped(x: string)
    requires '*' !in x && SingleLine(x)
    ensures ReplaceBold("**" + x + "**") == "<strong>" + x + "</strong>"
  {
    var s := "**" + x + "**";
    var t := x + "**";
    assert s[2..] == t;
    assert SingleLine(t);
    assert forall k | 0 <= k < |x| :: t[k] == x[k] && t[k] != '*';
    assert t[|x|] == '*' && t[|x| + 1] == '*';
    FindDoubleStarFirst(t);
    var j := FindDoubleStar(t).value;
    assert j == |x|;
    assert s[2..2 + j] == x;
    assert s[j + 4..] == [];
    var strong := "<strong>" + x + "</strong>";
    assert ReplaceBold(s) == strong + ReplaceBold([]);
    assert strong + [] == strong;
  }

  /** `*x*` on one line becomes `<em>x</em>`. */
  lemma ItalicWraps(x: string)
    requires '*' !in x && SingleLine(x)
    ensures Emphasize("*" + x + "*") == "<em>" + x + "</em>"
  {
    BoldSkipsItalic(x);
    ItalicOfWrapped(x);
  }

  lemma ItalicOfWrapped(x: string)
    requires '*' !in x && SingleLine(x)
    ensures ReplaceItalic("*" + x + "*") == "<em>" + x + "</em>"
  {
    var s := "*" + x + "*";
    var t := x + "*";
    assert s[1..] == t;
    assert FindStar(t) == Some(|x|) by {
      assert forall k | 0 <= k < |x| :: t[k] == x[k];
      FindStarAt(t, |x|);
    }
    ItalicMatch(s, |x|);
    assert s[1..][..|x|] == x;
    assert s[|x| + 2..] == [];
    assert ReplaceItalic(s) == "<em>" + x + "</em>" + [];
  }

  /** `*x*` holds no `**` unless `x` is empty, where the bold search finds no closing pair. */
  lemma BoldSkipsItalic(x: string)
    requires '*' !in x
    ensures ReplaceBold("*" + x + "*") == "*" + x + "*"
  {
    var s := "*" + x + "*";
    if |x| == 0 {
      assert s == "**";
      assert FindDoubleStar(s[2..]) == None;
    } else {
      assert s == [s[0]] + s[1..];
      assert s[1..] == x + "*";
      BoldTailUnchanged(x);
    }
  }

  /** A star-free text followed by one `*` holds no `**`, so bold leaves it alone. */
  lemma {:induction false} BoldTailUnchanged(x: string)
    requires '*' !in x
    ensures ReplaceBold(x + "*") == x + "*"
    decreases |x|
  {
    if x != [] {
      var s := x + "*";
      assert s[1..] == x[1..] + "*";
      assert s[0] == x[0] != '*';
      assert ReplaceBold(s) == [x[0]] + ReplaceBold(x[1..] + "*");
      BoldTailUnchanged(x[1..]);
      assert [x[0]] + (x[1..] + "*") == s;
    }
  }

  /**
   * On a single line, italic substitution pairs up the stars from the left:
   * at most one `*` survives, and only when there was an odd number.
   */
  lemma {:induction false} ItalicLeavesParity(s: string)
    requires SingleLine(s)
    ensures StarCount(ReplaceItalic(s)) == StarCount(s) % 2
    decreases |s|
  {
    if s == [] {
    } else {
      var t := s[1..];
      assert SingleLine(t);
      if s[0] == '*' && FindStar(t).Some? {
        var j := FindStar(t).value;
        FindStarFirst(t);
        StarFreeCount(t[..j]);
        ItalicLeavesParity(s[j + 2..]);
        ParityOfMatch(s, j);
      } else if s[0] == '*' {
        FindStarFirst(t);
        StarFreeUnchanged(t);
        StarFreeCount(t);
      } else {
        ItalicLeavesParity(t);
      }
    }
  }

  /** The step of `ItalicLeavesParity` where the leading `*` is paired with the one at `j + 1`. */
  lemma ParityOfMatch(s: string, j: nat)
    requires s != [] && s[0] == '*' && FindStar(s[1..]) == Some(j)
    requires StarCount(s[1..][..j]) == 0
    requires StarCount(ReplaceItalic(s[j + 2..])) == StarCount(s[j + 2..]) % 2
    ensures StarCount(ReplaceItalic(s)) == StarCount(s) % 2
  {
    var k := StarCount(s[j + 2..]);
    MatchStarCount(s, j);
    MatchReplaceCount(s, j);
    ParityShift(k);
  }

  lemma ParityShift(k: nat)
    ensures (k + 2) % 2 == k % 2
  {
  }

  /** A matched pair holds two stars and the text between them none. */
  lemma MatchStarCount(s: string, j: nat)
    requires s != [] && s[0] == '*' && FindStar(s[1..]) == Some(j)
    requires StarCount(s[1..][..j]) == 0
    ensures StarCount(s) == StarCount(s[j + 2..]) + 2
  {
    var t := s[1..];
    var inner := t[..j];
    assert StarCount(s) == 1 + StarCount(t);
    assert t == inner + t[j..];
    StarCountAppend(inner, t[j..]);
    assert t[j..][1..] == s[j + 2..];
  }

  /** Replacing a matched pair by `<em>` tags removes its two stars and adds none. */
  lemma MatchReplaceCount(s: string, j: nat)
    requires s != [] && s[0] == '*' && FindStar(s[1..]) == Some(j)
    requires StarCount(s[1..][..j]) == 0
    ensures StarCount(ReplaceItalic(s)) == StarCount(ReplaceItalic(s[j + 2..]))
  {
    var inner := s[1..][..j];
    ItalicMatch(s, j);
    EmStarCount(inner);
    StarCountAppend("<em>" + inner + "</em>", ReplaceItalic(s[j + 2..]));
  }

  /** The `<em>` tags add no star. */
  lemma EmStarCount(x: string)
    ensures StarCount("<em>" + x + "</em>") == StarCount(x)
  {
    StarFreeCount("<em>");
    StarFreeCount("</em>");
    StarCountAppend("<em>", x);
    StarCountAppend("<em>" + x, "</em>");
  }

  lemma ItalicMatch(s: string, j: nat)
    requires s != [] && s[0] == '*' && FindStar(s[1..]) == Some(j)
    ensures ReplaceItalic(s) == "<em>" + s[1..][..j] + "</em>" + ReplaceItalic(s[j + 2..])
  {
    assert s[1..][..j] == s[1..1 + j];
  }

  // ---------------------------------------------------------------------------
  // processLine
  // ---------------------------------------------------------------------------

  /** The rewriting of one input line (`processLine`). */
  function ProcessLine(line: string): string {
    if StartsWith(line, "### ") then "<h3>" + line[4..] + "</h3>"
    else if StartsWith(line, "## ") then "<h2>" + line[3..] + "</h2>"
    else if StartsWith(line, "# ") then "<h1>" + line[2..] + "</h1>"
    else
      var t := Trim(Emphasize(line));
      if StartsWith(t, "* ") then "<li>" + t[2..] + "</li>"
      else if t != [] then "<p>" + t + "</p>"
      else ""
  }

  /** Whether the renderer treats a line as a list line: tested on the raw trimmed line. */
  predicate IsListItem(line: string) {
    StartsWith(Trim(line), "* ")
  }

  /** A heading keeps its text verbatim, with no emphasis substitution. */
  lemma HeadingsVerbatim(x: string)
    ensures ProcessLine("### " + x) == "<h3>" + x + "</h3>"
    ensures ProcessLine("## " + x) == "<h2>" + x + "</h2>"
    ensures ProcessLine("# " + x) == "<h1>" + x + "</h1>"
  {
    var h3, h2, h1 := "### " + x, "## " + x, "# " + x;
    assert h3[..4] == "### " && h3[4..] == x;
    assert h2[..3] == "## " && h2[3..] == x && h2[2] == ' ';
    assert !StartsWith(h2, "### ");
    assert h1[..2] == "# " && h1[2..] == x && h1[1] == ' ';
    assert !StartsWith(h1, "### ") && !StartsWith(h1, "## ");
  }

  /** A blank line produces no markup and is not a list line, so it closes an open list. */
  lemma BlankLineSilent(line: string)
    requires AllWhitespace(line)
    ensures ProcessLine(line) == "" && !IsListItem(line)
  {
    assert '*' !in line by {
      forall i | 0 <= i < |line| ensures line[i] != '*' {
        assert IsWhitespace(line[i]);
      }
    }
    StarFreeUnchanged(line);
    TrimSpec(line);
    if |line| >= 2 {
      assert IsWhitespace(line[0]);
      assert line[..2][0] == line[0];
    }
  }

  /** A `* ` line whose item text holds no further `*` becomes a list item. */
  lemma PlainListItem(x: string)
    requires '*' !in x && Trim(x) != []
    ensures IsListItem("* " + x)
    ensures ProcessLine("* " + x) == "<li>" + TrimEnd(x) + "</li>"
  {
    var line := "* " + x;
    assert line[1..] == " " + x;
    LeadingStarUnchanged(line);
    TrimStartFixed(line);
    TrimSpec(x);
    TrimEndSpec(x);
    assert x[0..] == x;
    TrimEndAppend("* ", x);
    var t := "* " + TrimEnd(x);
    assert t[..2] == "* " && t[2..] == TrimEnd(x);
    NotHeading(line);
  }

  /** A lone leading `*` followed by star-free text is left alone by both replacements. */
  lemma LeadingStarUnchanged(s: string)
    requires s != [] && s[0] == '*' && '*' !in s[1..]
    ensures Emphasize(s) == s
  {
    StarFreeUnchanged(s[1..]);
    StarFreeNoClose(s[1..]);
    assert s == [s[0]] + s[1..];
    assert ReplaceBold(s) == s by {
      if |s| >= 2 {
        assert s[1] == s[1..][0];
      }
    }
  }

  lemma {:induction false} StarFreeNoClose(t: string)
    requires '*' !in t
    ensures FindStar(t) == None
    decreases |t|
  {
    if t != [] {
      StarFreeNoClose(t[1..]);
    }
  }

  /** A line that does not start with `#` skips the heading tests. */
  lemma NotHeading(line: string)
    requires line != [] && line[0] != '#'
    ensures ProcessLine(line) ==
      var t := Trim(Emphasize(line));
      if StartsWith(t, "* ") then "<li>" + t[2..] + "</li>"
      else if t != [] then "<p>" + t + "</p>"
      else ""
  {
    assert !StartsWith(line, "### ") && !StartsWith(line, "## ") && !StartsWith(line, "# ") by {
      if |line| >= 2 { assert line[..2][0] == line[0]; }
      if |line| >= 3 { assert line[..3][0] == line[0]; }
      if |line| >= 4 { assert line[..4][0] == line[0]; }
    }
  }

  /**
   * A line `* x*y` whose item text `x` holds no star passes the list test
   * on the raw line, but italic substitution pairs its leading `*` with the
   * one after `x`. What `trim` then sees starts with `<em>`, so the line is
   * emitted as a paragraph, not as an item: the list test and the item
   * rewriting disagree for every such line. The remainder `y` only has to
   * hold no `**` and not start with `*`.
   */
  lemma ListLineFamilyAsParagraph(x: string, y: string)
    requires '*' !in x && SingleLine(x)
    requires y == [] || y[0] != '*'
    requires forall k | 0 <= k < |y| - 1 :: !(y[k] == '*' && y[k + 1] == '*')
    ensures IsListItem("* " + x + "*" + y)
    ensures Emphasize("* " + x + "*" + y) == "<em> " + x + "</em>" + ReplaceItalic(y)
    ensures !StartsWith(Trim(Emphasize("* " + x + "*" + y)), "* ")
    ensures ProcessLine("* " + x + "*" + y) == "<p>" + Trim(Emphasize("* " + x + "*" + y)) + "</p>"
  {
    var line := "* " + x + "*" + y;
    QuirkIsListItem(x, y);
    QuirkEmphasis(x, y);
    var e := Emphasize(line);
    assert e[0] == '<';
    TagLedTrim(e);
    NotHeading(line);
  }

  /** The raw line `* x*y` passes the list test. */
  lemma QuirkIsListItem(x: string, y: string)
    ensures IsListItem("* " + x + "*" + y)
  {
    var line := "* " + x + "*" + y;
    TrimStartFixed(line);
    TrimEndNonEmpty("*" + y);
    TrimEndAppend("* " + x, "*" + y);
    assert line == ("* " + x) + ("*" + y);
    assert Trim(line)[..2] == "* ";
  }

  /** Text that starts with `<` still starts with it after `trim`, so it is no list item. */
  lemma TagLedTrim(e: string)
    requires e != [] && e[0] == '<'
    ensures Trim(e) != [] && !StartsWith(Trim(e), "* ")
  {
    TrimStartFixed(e);
    TrimEndNonEmpty(e);
    TrimEndSpec(e);
    assert Trim(e)[0] == '<';
    assert !StartsWith(Trim(e), "* ") by {
      if |Trim(e)| >= 2 {
        assert Trim(e)[..2][0] == '<';
      }
    }
  }

  /** Bold leaves `* x*y` alone, and italic turns its first two stars into `<em>` tags. */
  lemma QuirkEmphasis(x: string, y: string)
    requires '*' !in x && SingleLine(x)
    requires y == [] || y[0] != '*'
    requires forall k | 0 <= k < |y| - 1 :: !(y[k] == '*' && y[k + 1] == '*')
    ensures Emphasize("* " + x + "*" + y) == "<em> " + x + "</em>" + ReplaceItalic(y)
  {
    QuirkBold(x, y);
    QuirkItalic(x, y);
  }

  lemma QuirkBold(x: string, y: string)
    requires '*' !in x
    requires y == [] || y[0] != '*'
    requires forall k | 0 <= k < |y| - 1 :: !(y[k] == '*' && y[k + 1] == '*')
    ensures ReplaceBold("* " + x + "*" + y) == "* " + x + "*" + y
  {
    var a, b := " " + x, "*" + y;
    QuirkRegroup(x, y);
    StarThenNoStar(a + b);
    BoldStarFreePrefix(a, b);
    NoDoubleStarUnchanged(y);
    StarThenNoStar(y);
  }

  lemma QuirkRegroup(x: string, y: string)
    ensures "* " + x + "*" + y == "*" + ((" " + x) + ("*" + y))
  {
    AppendAssoc("* " + x, "*", y);
    assert "* " == "*" + " ";
    AppendAssoc("*", " ", x);
    AppendAssoc("*", " " + x, "*" + y);
  }

  lemma AppendAssoc(p: string, q: string, r: string)
    ensures p + q + r == p + (q + r)
  {
  }

  /** A star-free prefix passes the bold replacement unchanged, whatever follows it. */
  lemma {:induction false} BoldStarFreePrefix(x: string, z: string)
    requires '*' !in x
    ensures ReplaceBold(x + z) == x + ReplaceBold(z)
    decreases |x|
  {
    if x == [] {
      assert x + z == z;
    } else {
      var s := x + z;
      assert s[0] == x[0];
      BoldSkipsNonStar(s);
      assert s[1..] == x[1..] + z;
      BoldStarFreePrefix(x[1..], z);
      assert [x[0]] + (x[1..] + ReplaceBold(z)) == x + ReplaceBold(z);
    }
  }

  /** A first character other than `*` is copied, and the replacement goes on behind it. */
  lemma BoldSkipsNonStar(s: string)
    requires s != [] && s[0] != '*'
    ensures ReplaceBold(s) == [s[0]] + ReplaceBold(s[1..])
  {
    if |s| < 2 {
      assert s[1..] == [];
      assert s == [s[0]];
    }
  }

  /** A `*` followed by text that does not start with `*` is kept by the bold replacement. */
  lemma StarThenNoStar(y: string)
    requires y == [] || y[0] != '*'
    ensures ReplaceBold("*" + y) == "*" + ReplaceBold(y)
  {
    var s := "*" + y;
    assert s[1..] == y;
    if |s| >= 2 {
      assert s[1] == y[0];
    } else {
      assert y == [];
    }
  }

  lemma QuirkItalic(x: string, y: string)
    requires '*' !in x && SingleLine(x)
    ensures ReplaceItalic("* " + x + "*" + y) == "<em> " + x + "</em>" + ReplaceItalic(y)
  {
    var line := "* " + x + "*" + y;
    var t := line[1..];
    assert t == " " + x + "*" + y;
    var j := |x| + 1;
    forall k | 0 <= k < j
      ensures t[k] != '*' && !IsLineTerminator(t[k])
    {
      if k > 0 {
        assert t[k] == x[k - 1];
      }
    }
    FindStarAt(t, j);
    ItalicMatch(line, j);
    assert t[..j] == " " + x;
    assert line[j + 2..] == y;
  }

  /**
   * `* a *b*` is one of these lines: it opens a list but is emitted as a
   * paragraph.
   */
  lemma ListLineEmittedAsParagraph(line: string, em: string)
    requires line == "* a *b*"
    requires em == "<em> a </em>b*"
    ensures IsListItem(line)
    ensures ProcessLine(line) == "<p>" + em + "</p>"
  {
    ListLineFamilyAsParagraph("a ", "b*");
    assert line == "* " + "a " + "*" + "b*";
    QuirkLineEmphasis(line);
    var e := em;
    TrimStartFixed(e);
    TrimEndFixed(e);
  }

  lemma QuirkLineEmphasis(line: string)
    requires line == "* a *b*"
    ensures Emphasize(line) == "<em> a </em>b*"
  {
    var y := "b*";
    assert line == "* " + "a " + "*" + y;
    QuirkEmphasis("a ", y);
    LoneStarKept(y);
  }

  /** A star with nothing after it has no partner and is kept. */
  lemma LoneStarKept(rest: string)
    requires rest == "b*"
    ensures ReplaceItalic(rest) == rest
  {
    assert rest[1..] == "*";
    StarFreeNoClose("*"[1..]);
    assert ReplaceItalic("*") == "*" + ReplaceItalic([]);
  }

  /** The closing `*` is the first `*` of the line when nothing before it is a star or a line terminator. */
  lemma {:induction false} FindStarAt(t: string, j: nat)
    requires j < |t| && t[j] == '*'
    requires forall k | 0 <= k < j :: t[k] != '*' && !IsLineTerminator(t[k])
    ensures FindStar(t) == Some(j)
    decreases j
  {
    if j > 0 {
      FindStarAt(t[1..], j - 1);
    }
  }

  /** Text with no two adjacent stars is left alone by the bold replacement. */
  lemma {:induction false} NoDoubleStarUnchanged(s: string)
    requires forall k | 0 <= k < |s| - 1 :: !(s[k] == '*' && s[k + 1] == '*')
    ensures ReplaceBold(s) == s
    decreases |s|
  {
    if |s| >= 2 {
      assert !(s[0] == '*' && s[1] == '*');
      var u := s[1..];
      assert forall k | 0 <= k < |u| :: u[k] == s[k + 1];
      NoDoubleStarUnchanged(u);
      assert s == [s[0]] + s[1..];
    }
  }

  // ---------------------------------------------------------------------------
  // content.split('\n')
  // ---------------------------------------------------------------------------

  /** `s.split('\n')`: one more piece than there are line feeds, none holding a line feed. */
  function SplitLines(s: string): (r: seq<string>)
    ensures |r| == multiset(s)['\n'] + 1
    ensures forall i | 0 <= i < |r| :: '\n' !in r[i]
    decreases |s|
  {
    if s == [] then [""]
    else
      var rest := SplitLines(s[1..]);
      assert s == [s[0]] + s[1..];
      if s[0] == '\n' then [""] + rest
      else [[s[0]] + rest[0]] + rest[1..]
  }

  /** `lines.join('\n')`. */
  function JoinLines(lines: seq<string>): string
    decreases |lines|
  {
    if lines == [] then ""
    else if |lines| == 1 then lines[0]
    else lines[0] + "\n" + JoinLines(lines[1..])
  }

  /** Splitting loses nothing: joining the pieces back gives the text. */
  lemma {:induction false} JoinSplit(s: string)
    ensures JoinLines(SplitLines(s)) == s
    decreases |s|
  {
    if s != [] {
      JoinSplit(s[1..]);
      var rest := SplitLines(s[1..]);
      if s[0] == '\n' {
        assert SplitLines(s) == [""] + rest;
        JoinNewline(rest);
      } else {
        assert SplitLines(s) == [[s[0]] + rest[0]] + rest[1..];
        JoinChar(s[0], rest);
      }
      assert s == [s[0]] + s[1..];
    }
  }

  lemma JoinNewline(rest: seq<string>)
    requires |rest| >= 1
    ensures JoinLines([""] + rest) == "\n" + JoinLines(rest)
  {
    var r := [""] + rest;
    assert r[1..] == rest;
  }

  lemma JoinChar(c: char, rest: seq<string>)
    requires |rest| >= 1
    ensures JoinLines([[c] + rest[0]] + rest[1..]) == [c] + JoinLines(rest)
  {
    var r := [[c] + rest[0]] + rest[1..];
    if |rest| > 1 {
      assert r[1..] == rest[1..];
    }
  }

  /** Joining line-feed-free lines and splitting again gives the lines back. */
  lemma {:induction false} SplitJoin(lines: seq<string>)
    requires |lines| >= 1
    requires forall i | 0 <= i < |lines| :: '\n' !in lines[i]
    ensures SplitLines(JoinLines(lines)) == lines
    decreases |lines|
  {
    if |lines| == 1 {
      SplitNoNewline(lines[0]);
    } else {
      SplitJoin(lines[1..]);
      SplitPrefix(lines[0], JoinLines(lines[1..]));
    }
  }

  lemma {:induction false} SplitNoNewline(s: string)
    requires '\n' !in s
    ensures SplitLines(s) == [s]
    decreases |s|
  {
    if s != [] {
      SplitNoNewline(s[1..]);
      assert s == [s[0]] + s[1..];
    }
  }

  /** A character other than a line feed joins the first line. */
  lemma SplitCons(c: char, t: string)
    requires c != '\n'
    ensures SplitLines([c] + t) == [[c] + SplitLines(t)[0]] + SplitLines(t)[1..]
  {
    assert ([c] + t)[1..] == t;
  }

  lemma {:induction false} SplitPrefix(a: string, b: string)
    requires '\n' !in a
    ensures SplitLines(a + "\n" + b) == [a] + SplitLines(b)
    decreases |a|
  {
    var s := a + "\n" + b;
    if a == [] {
      assert s[1..] == b;
    } else {
      var t := a[1..] + "\n" + b;
      assert s == [a[0]] + t;
      SplitPrefix(a[1..], b);
      SplitCons(a[0], t);
      assert [a[0]] + a[1..] == a;
    }
  }

  // ---------------------------------------------------------------------------
  // The renderer
  // ---------------------------------------------------------------------------

  /** What the renderer appends to its output: list tags and rewritten lines. */
  datatype Piece = OpenList | CloseList | Markup(html: string)

  function PieceText(p: Piece): string {
    match p
    case OpenList => "<ul>"
    case CloseList => "</ul>"
    case Markup(h) => h
  }

  function Flatten(ps: seq<Piece>): string
    decreases |ps|
  {
    if ps == [] then "" else Flatten(ps[..|ps| - 1]) + PieceText(ps[|ps| - 1])
  }

  lemma {:induction false} FlattenAppend(a: seq<Piece>, b: seq<Piece>)
    ensures Flatten(a + b) == Flatten(a) + Flatten(b)
    decreases |b|
  {
    if b == [] {
      assert a + b == a;
    } else {
      assert (a + b)[..|a + b| - 1] == a + b[..|b| - 1];
      FlattenAppend(a, b[..|b| - 1]);
    }
  }

  /**
   * What the renderer uses of one input line: whether it is a list line, and
   * its rewrite. The list structure depends on nothing else.
   */
  datatype Line = Line(item: bool, html: string)

  function Classify(line: string): Line {
    Line(IsListItem(line), ProcessLine(line))
  }

  function ClassifyAll(lines: seq<string>): (ls: seq<Line>)
    ensures |ls| == |lines|
    ensures forall i | 0 <= i < |lines| :: ls[i] == Classify(lines[i])
  {
    seq(|lines|, i requires 0 <= i < |lines| => Classify(lines[i]))
  }

  /** The line before line `i` exists and is a list line. */
  predicate FollowsListLine(ls: seq<Line>, i: nat)
    requires i <= |ls|
  {
    i > 0 && ls[i - 1].item
  }

  /**
   * The pieces for line `i`, decided from that line and the one before it:
   * `<ul>` where a run of list lines begins, `</ul>` where one has just ended,
   * then the rewritten line.
   */
  function LinePieces(ls: seq<Line>, i: nat): seq<Piece>
    requires i < |ls|
  {
    var item := ls[i].item;
    var prev := FollowsListLine(ls, i);
    (if item && !prev then [OpenList] else if !item && prev then [CloseList] else [])
    + [Markup(ls[i].html)]
  }

  function PiecesBefore(ls: seq<Line>, n: nat): seq<Piece>
    requires n <= |ls|
    decreases n
  {
    if n == 0 then [] else PiecesBefore(ls, n - 1) + LinePieces(ls, n - 1)
  }

  /** Every line's pieces, then `</ul>` if the text ends in a list. */
  function PiecesOf(ls: seq<Line>): seq<Piece> {
    PiecesBefore(ls, |ls|) + (if FollowsListLine(ls, |ls|) then [CloseList] else [])
  }

  /** The whole output of the renderer, as pieces. */
  function Pieces(lines: seq<string>): seq<Piece> {
    PiecesOf(ClassifyAll(lines))
  }

  /** The list tag, if any, written in front of line `i`. */
  function TagBefore(ls: seq<Line>, i: nat): string
    requires i < |ls|
  {
    var item := ls[i].item;
    var prev := FollowsListLine(ls, i);
    if item && !prev then "<ul>" else if !item && prev then "</ul>" else ""
  }

  /**
   * A list opens in front of a line exactly when it is a list line and the
   * line before it, if any, is not; one closes exactly when a line that is not
   * a list line follows one that is.
   */
  lemma ListTagPlacement(lines: seq<string>, i: nat)
    requires i < |lines|
    ensures TagBefore(ClassifyAll(lines), i) == "<ul>" <==>
      IsListItem(lines[i]) && !(i > 0 && IsListItem(lines[i - 1]))
    ensures TagBefore(ClassifyAll(lines), i) == "</ul>" <==>
      !IsListItem(lines[i]) && i > 0 && IsListItem(lines[i - 1])
  {
    var ls := ClassifyAll(lines);
    assert ls[i] == Classify(lines[i]);
    if i > 0 {
      assert ls[i - 1] == Classify(lines[i - 1]);
    }
    assert "<ul>" != "</ul>" && "<ul>" != "" && "</ul>" != "" by {
      assert "<ul>"[1] != "</ul>"[1];
    }
  }

  lemma LineStep(ls: seq<Line>, n: nat)
    requires 0 < n <= |ls|
    ensures Flatten(PiecesBefore(ls, n)) == Flatten(PiecesBefore(ls, n - 1)) + (TagBefore(ls, n - 1) + ls[n - 1].html)
  {
    var before, lp := PiecesBefore(ls, n - 1), LinePieces(ls, n - 1);
    assert PiecesBefore(ls, n) == before + lp;
    FlattenAppend(before, lp);
    LinePiecesText(ls, n - 1);
  }

  /** The pieces of one line flatten to its list tag, if any, and its rewritten text. */
  lemma LinePiecesText(ls: seq<Line>, i: nat)
    requires i < |ls|
    ensures Flatten(LinePieces(ls, i)) == TagBefore(ls, i) + ls[i].html
  {
    var lp := LinePieces(ls, i);
    var tag := lp[..|lp| - 1];
    assert Flatten(tag) == TagBefore(ls, i) by {
      if tag != [] {
        assert tag[..0] == [];
      }
    }
  }

  /** The text written for the first `n` lines: list tags and rewritten lines. */
  function TextBefore(ls: seq<Line>, n: nat): string
    requires n <= |ls|
    decreases n
  {
    if n == 0 then "" else TextBefore(ls, n - 1) + (TagBefore(ls, n - 1) + ls[n - 1].html)
  }

  /** The text written for the first `n` lines is the flattened pieces of those lines. */
  lemma {:induction false} TextIsPieces(ls: seq<Line>, n: nat)
    requires n <= |ls|
    ensures TextBefore(ls, n) == Flatten(PiecesBefore(ls, n))
    decreases n
  {
    if n > 0 {
      TextIsPieces(ls, n - 1);
      LineStep(ls, n);
    }
  }

  /** The whole output is the text for all lines, then `</ul>` when the text ends in a list. */
  lemma FinalClose(ls: seq<Line>)
    ensures Flatten(PiecesOf(ls)) ==
      TextBefore(ls, |ls|) + (if FollowsListLine(ls, |ls|) then "</ul>" else "")
  {
    var n := |ls|;
    TextIsPieces(ls, n);
    var close := if FollowsListLine(ls, n) then [CloseList] else [];
    FlattenAppend(PiecesBefore(ls, n), close);
    assert Flatten(close) == (if FollowsListLine(ls, n) then "</ul>" else "") by {
      if close != [] {
        assert close[..0] == [];
      }
    }
  }

  /** One turn of the rendering loop, stated on the flag and the list test it computes. */
  lemma TextStep(ls: seq<Line>, i: nat, isListItem: bool, inList: bool)
    requires i < |ls|
    requires isListItem == ls[i].item && inList == FollowsListLine(ls, i)
    ensures TextBefore(ls, i + 1) == TextBefore(ls, i) +
      (if isListItem && !inList then "<ul>" else if !isListItem && inList then "</ul>" else "") +
      ls[i].html
    ensures FollowsListLine(ls, i + 1) == isListItem
  {
    var tag := TagBefore(ls, i);
    var done := TextBefore(ls, i);
    assert done + (tag + ls[i].html) == done + tag + ls[i].html;
  }

  /**
   * The rendering loop: one pass over the lines with an `inList` flag.
   * Its output is the stateless definition above.
   */
  method RenderMarkdown(content: string) returns (html: string)
    ensures html == Flatten(Pieces(SplitLines(content)))
  {
    var lines := SplitLines(content);
    ghost var ls := ClassifyAll(lines);
    html := "";
    var inList := false;
    var i := 0;
    while i < |lines|
      invariant 0 <= i <= |lines|
      invariant inList == FollowsListLine(ls, i)
      invariant html == TextBefore(ls, i)
    {
      var line := lines[i];
      var isListItem := IsListItem(line);
      var text := ProcessLine(line);
      assert ls[i] == Line(isListItem, text);
      TextStep(ls, i, isListItem, inList);
      if isListItem && !inList {
        html := html + "<ul>";
        inList := true;
      } else if !isListItem && inList {
        html := html + "</ul>";
        inList := false;
      } else {
        assert html + "" == html;
      }
      html := html + text;
      i := i + 1;
    }
    if inList {
      html := html + "</ul>";
    }
    FinalClose(ls);
  }

  // ---------------------------------------------------------------------------
  // Properties of the output
  // ---------------------------------------------------------------------------

  /**
   * Reads the pieces left to right with a flag for "inside a list"; `None`
   * when a `<ul>` opens inside a list or a `</ul>` closes outside one.
   */
  function ListNesting(ps: seq<Piece>, open: bool): Option<bool>
    decreases |ps|
  {
    if ps == [] then Some(open)
    else
      match ps[0]
      case OpenList => if open then None else ListNesting(ps[1..], true)
      case CloseList => if open then ListNesting(ps[1..], false) else None
      case Markup(_) => ListNesting(ps[1..], open)
  }

  lemma {:induction false} ListNestingAppend(a: seq<Piece>, b: seq<Piece>, open: bool)
    requires ListNesting(a, open).Some?
    ensures ListNesting(a + b, open) == ListNesting(b, ListNesting(a, open).value)
    decreases |a|
  {
    if a == [] {
      assert a + b == b;
    } else {
      assert (a + b)[1..] == a[1..] + b;
      var next := match a[0] case OpenList => true case CloseList => false case Markup(_) => open;
      ListNestingAppend(a[1..], b, next);
    }
  }

  lemma {:induction false} PrefixNesting(ls: seq<Line>, n: nat)
    requires n <= |ls|
    ensures ListNesting(PiecesBefore(ls, n), false) == Some(FollowsListLine(ls, n))
    decreases n
  {
    if n > 0 {
      PrefixNesting(ls, n - 1);
      var lp := LinePieces(ls, n - 1);
      ListNestingAppend(PiecesBefore(ls, n - 1), lp, false);
      var item := ls[n - 1].item;
      var prev := FollowsListLine(ls, n - 1);
      var tail := [Markup(ls[n - 1].html)];
      assert ListNesting(tail, item) == Some(item);
      if item && !prev {
        assert lp == [OpenList] + tail;
        assert lp[1..] == tail;
      } else if !item && prev {
        assert lp == [CloseList] + tail;
        assert lp[1..] == tail;
      } else {
        assert lp == tail;
      }
    }
  }

  /**
   * `<ul>` and `</ul>` are balanced and never nested: reading the output, a
   * list is only opened when none is open, only closed when one is, and none
   * is left open at the end.
   */
  lemma ListTagsBalanced(lines: seq<string>)
    ensures ListNesting(Pieces(lines), false) == Some(false)
  {
    var ls := ClassifyAll(lines);
    PrefixNesting(ls, |ls|);
    ListNestingAppend(PiecesBefore(ls, |ls|),
      if FollowsListLine(ls, |ls|) then [CloseList] else [], false);
  }

  /** The rewritten lines, in the order the pieces carry them. */
  function MarkupOf(ps: seq<Piece>): seq<string>
    decreases |ps|
  {
    if ps == [] then []
    else (if ps[0].Markup? then [ps[0].html] else []) + MarkupOf(ps[1..])
  }

  lemma {:induction false} MarkupOfAppend(a: seq<Piece>, b: seq<Piece>)
    ensures MarkupOf(a + b) == MarkupOf(a) + MarkupOf(b)
    decreases |a|
  {
    if a == [] {
      assert a + b == b;
    } else {
      assert (a + b)[1..] == a[1..] + b;
      MarkupOfAppend(a[1..], b);
    }
  }

  lemma {:induction false} PrefixMarkup(ls: seq<Line>, n: nat)
    requires n <= |ls|
    ensures |MarkupOf(PiecesBefore(ls, n))| == n
    ensures forall i | 0 <= i < n :: MarkupOf(PiecesBefore(ls, n))[i] == ls[i].html
    decreases n
  {
    if n > 0 {
      PrefixMarkup(ls, n - 1);
      var before := PiecesBefore(ls, n - 1);
      var lp := LinePieces(ls, n - 1);
      assert PiecesBefore(ls, n) == before + lp;
      MarkupOfAppend(before, lp);
      LineMarkup(ls, n - 1);
      var prev := MarkupOf(before);
      var cur := MarkupOf(PiecesBefore(ls, n));
      assert cur == prev + [ls[n - 1].html];
      forall i | 0 <= i < n
        ensures cur[i] == ls[i].html
      {
        if i < n - 1 {
          assert cur[i] == prev[i];
        }
      }
    }
  }

  /** The list tag of a line carries no markup; the line's rewrite is its only markup. */
  lemma LineMarkup(ls: seq<Line>, i: nat)
    requires i < |ls|
    ensures MarkupOf(LinePieces(ls, i)) == [ls[i].html]
  {
    var lp := LinePieces(ls, i);
    var tail := [Markup(ls[i].html)];
    assert MarkupOf(tail) == [ls[i].html];
    if lp != tail {
      assert lp[1..] == tail;
    }
  }

  /** Every input line is rewritten exactly once, in input order; the list tags add no other text. */
  lemma LinesInOrder(lines: seq<string>)
    ensures |MarkupOf(Pieces(lines))| == |lines|
    ensures forall i | 0 <= i < |lines| :: MarkupOf(Pieces(lines))[i] == ProcessLine(lines[i])
  {
    var ls := ClassifyAll(lines);
    PrefixMarkup(ls, |ls|);
    var close := if FollowsListLine(ls, |ls|) then [CloseList] else [];
    MarkupOfAppend(PiecesBefore(ls, |ls|), close);
    forall i | 0 <= i < |lines|
      ensures MarkupOf(Pieces(lines))[i] == ProcessLine(lines[i])
    {
      assert ls[i] == Classify(lines[i]);
    }
  }
}
