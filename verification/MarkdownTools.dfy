/** The Markdown transforms of main-two.py: math-delimiter rewriting and
    image-caption stripping (`FormatConverter`), and the word counter
    (`DocumentStats`). */
module MarkdownTools {
  import opened Common
  import opened Substitution

  // ---------------------------------------------------------------------
  // normalize_math_formulas (main-two.py:313-319)
  // ---------------------------------------------------------------------

  /** LaTeX delimiters become Markdown ones: `\(` and `\)` become "$",
      `\[` and `\]` become "$$" on a line of its own; whitespace inside the
      delimiters goes with them. */
  function NormalizeMathFormulas(md: string): (r: string)
    ensures md == "" ==> r == ""
  {
    if md == "" then ""
    else
      var inlineOpened := Sub(InlineMathOpen, md);
      var inlineClosed := Sub(InlineMathClose, inlineOpened);
      var displayOpened := Sub(DisplayMathOpen, inlineClosed);
      Sub(DisplayMathClose, displayOpened)
  }

  /** A backslash at `k` followed by `c`. */
  predicate EscapeAt(s: string, k: int, c: char) {
    0 <= k && k + 1 < |s| && s[k] == '\\' && s[k + 1] == c
  }

  /** Every backslash in `s` is followed by something other than `c`. */
  predicate NotEscaping(s: string, c: char) {
    forall k :: 0 <= k < |s| ==> !EscapeAt(s, k, c)
  }

  /** The opening rules with their bracket and replacement. */
  predicate OpenerRule(rule: Rule, bracket: char, repl: string) {
    (rule == InlineMathOpen && bracket == '(' && repl == "$")
    || (rule == DisplayMathOpen && bracket == '[' && repl == "\n$$\n")
  }

  /** The closing rules with their bracket and replacement. */
  predicate CloserRule(rule: Rule, bracket: char, repl: string) {
    (rule == InlineMathClose && bracket == ')' && repl == "$")
    || (rule == DisplayMathClose && bracket == ']' && repl == "\n$$\n")
  }

  /** An opening rule leaves text without its delimiter alone. */
  lemma OpenerIdle(rule: Rule, bracket: char, repl: string, s: string)
    requires OpenerRule(rule, bracket, repl) && NotEscaping(s, bracket)
    ensures Sub(rule, s) == s
  {
    forall k | 0 <= k < |s| ensures MatchAt(rule, s, k).None? {
      assert !EscapeAt(s, k, bracket);
    }
    SubWithoutMatch(rule, s, 0);
  }

  /** A closing rule leaves text without its delimiter alone. */
  lemma CloserIdle(rule: Rule, bracket: char, repl: string, s: string)
    requires CloserRule(rule, bracket, repl) && NotEscaping(s, bracket)
    ensures Sub(rule, s) == s
  {
    forall k | 0 <= k < |s| ensures MatchAt(rule, s, k).None? {
      var m := SkipSpaces(s, k);
      assert !EscapeAt(s, m, bracket);
    }
    SubWithoutMatch(rule, s, 0);
  }

  /** No `\(`, `\)`, `\[` or `\]` in `s`. */
  predicate NoMathDelimiter(s: string) {
    NotEscaping(s, '(') && NotEscaping(s, ')') && NotEscaping(s, '[') && NotEscaping(s, ']')
  }

  /** Joining two texts creates no escape unless the first ends with a
      backslash and the second starts with the escaped character. */
  lemma EscapeJoin(a: string, b: string, c: char)
    requires NotEscaping(a, c) && NotEscaping(b, c)
    requires a == [] || b == [] || a[|a| - 1] != '\\' || b[0] != c
    ensures NotEscaping(a + b, c)
  {
    var s := a + b;
    forall k | 0 <= k < |s| ensures !EscapeAt(s, k, c) {
      if k + 1 < |a| {
        assert !EscapeAt(a, k, c);
      } else if |a| <= k && k + 1 < |s| {
        assert !EscapeAt(b, k - |a|, c);
      }
    }
  }

  /** Whitespace escapes nothing. */
  lemma SpaceNotEscaping(w: string, c: char)
    requires AllSpace(w)
    ensures NotEscaping(w, c)
  {
    forall k | 0 <= k < |w| ensures !EscapeAt(w, k, c) {
      assert IsSpace(w[k]);
    }
  }

  /** An opening rule finds no match starting in a front part without its
      delimiter, unless that part ends with the backslash of one. */
  lemma OpenerPrefixIdle(rule: Rule, bracket: char, repl: string, x: string, y: string)
    requires OpenerRule(rule, bracket, repl) && NotEscaping(x, bracket)
    requires x == [] || y == [] || x[|x| - 1] != '\\' || y[0] != bracket
    ensures forall k :: 0 <= k < |x| ==> MatchAt(rule, x + y, k).None?
  {
    var s := x + y;
    forall k | 0 <= k < |x| ensures MatchAt(rule, s, k).None? {
      if k + 1 < |x| {
        assert s[k] == x[k] && s[k + 1] == x[k + 1];
        assert !EscapeAt(x, k, bracket);
      } else if y != [] {
        assert s[k] == x[k] && s[k + 1] == y[0];
      }
    }
  }

  /** A closing rule finds no match starting in a front part without its
      delimiter that ends with something other than whitespace, unless that
      part ends with the backslash of one. */
  lemma CloserPrefixIdle(rule: Rule, bracket: char, repl: string, x: string, y: string)
    requires CloserRule(rule, bracket, repl) && NotEscaping(x, bracket)
    requires x == [] || !IsSpace(x[|x| - 1])
    requires x == [] || y == [] || x[|x| - 1] != '\\' || y[0] != bracket
    ensures forall k :: 0 <= k < |x| ==> MatchAt(rule, x + y, k).None?
  {
    var s := x + y;
    forall k | 0 <= k < |x| ensures MatchAt(rule, s, k).None? {
      assert s[|x| - 1] == x[|x| - 1];
      SkipSpacesStopsAt(s, k, |x| - 1);
      var m := SkipSpaces(s, k);
      if m + 1 < |x| {
        assert s[m] == x[m] && s[m + 1] == x[m + 1];
        assert !EscapeAt(x, m, bracket);
      } else if y != [] {
        assert s[m] == x[m] && s[m + 1] == y[0];
      }
    }
  }

  /** A math rule copies a front part in which none of its delimiters
      starts, and rewrites the rest as a text of its own. */
  lemma MathPrefixKept(rule: Rule, bracket: char, repl: string, x: string, y: string)
    requires OpenerRule(rule, bracket, repl) || CloserRule(rule, bracket, repl)
    requires NotEscaping(x, bracket)
    requires x == [] || y == [] || x[|x| - 1] != '\\' || y[0] != bracket
    requires CloserRule(rule, bracket, repl) ==> x == [] || !IsSpace(x[|x| - 1])
    ensures Sub(rule, x + y) == x + Sub(rule, y)
  {
    var s := x + y;
    if OpenerRule(rule, bracket, repl) {
      OpenerPrefixIdle(rule, bracket, repl, x, y);
    } else {
      CloserPrefixIdle(rule, bracket, repl, x, y);
    }
    assert s[..|x|] == x && s[|x|..] == y;
    DelimiterLooksForward(rule, s, |x|, y);
    SubAfterPrefix(rule, s, |x|, y);
  }

  /** One opening delimiter with the whitespace after it becomes the
      replacement; the text before it is kept and the text after it is
      rewritten as a text of its own. */
  lemma OpenerStep(rule: Rule, bracket: char, repl: string, pre: string, ws: string, rest: string)
    requires OpenerRule(rule, bracket, repl) && NotEscaping(pre, bracket)
    requires AllSpace(ws) && (rest == [] || !IsSpace(rest[0]))
    ensures Sub(rule, pre + ['\\', bracket] + ws + rest) == pre + repl + Sub(rule, rest)
  {
    var tail := ['\\', bracket] + ws + rest;
    assert pre + ['\\', bracket] + ws + rest == pre + tail;
    MathPrefixKept(rule, bracket, repl, pre, tail);
    OpenerLeads(rule, bracket, repl, ws, rest);
  }

  /** A text that starts with an opening delimiter. */
  lemma OpenerLeads(rule: Rule, bracket: char, repl: string, ws: string, rest: string)
    requires OpenerRule(rule, bracket, repl)
    requires AllSpace(ws) && (rest == [] || !IsSpace(rest[0]))
    ensures Sub(rule, ['\\', bracket] + ws + rest) == repl + Sub(rule, rest)
  {
    var s := ['\\', bracket] + ws + rest;
    var e := 2 + |ws|;
    OpenerHit(rule, bracket, repl, [], ws, rest);
    assert [] + ['\\', bracket] + ws + rest == s;
    assert s[e..] == rest;
    SubStep(rule, s, 0, Hit(e, repl));
    DelimiterLooksForward(rule, s, e, rest);
    SubSuffix(rule, s, e, rest);
  }

  lemma OpenerHit(rule: Rule, bracket: char, repl: string, pre: string, ws: string, rest: string)
    requires OpenerRule(rule, bracket, repl) && AllSpace(ws) && (rest == [] || !IsSpace(rest[0]))
    ensures var s := pre + ['\\', bracket] + ws + rest;
      MatchAt(rule, s, |pre|) == Some(Hit(|pre| + 2 + |ws|, repl))
  {
    var s := pre + ['\\', bracket] + ws + rest;
    var e := |pre| + 2 + |ws|;
    assert s[|pre|] == '\\' && s[|pre| + 1] == bracket;
    assert SkipSpaces(s, |pre| + 2) == e by {
      forall k | |pre| + 2 <= k < e ensures IsSpace(s[k]) {
        assert s[k] == ws[k - |pre| - 2];
      }
      if e < |s| {
        assert s[e] == rest[0];
      }
    }
  }

  /** Whitespace and one closing delimiter become the replacement; the text
      before them is kept and the text after them is rewritten as a text of
      its own. */
  lemma CloserStep(rule: Rule, bracket: char, repl: string, front: string, ws: string, post: string)
    requires CloserRule(rule, bracket, repl) && NotEscaping(front, bracket)
    requires front == [] || !IsSpace(front[|front| - 1])
    requires AllSpace(ws)
    ensures Sub(rule, front + ws + ['\\', bracket] + post) == front + repl + Sub(rule, post)
  {
    var tail := ws + ['\\', bracket] + post;
    assert front + ws + ['\\', bracket] + post == front + tail;
    assert tail[0] != bracket by {
      if ws != [] {
        assert tail[0] == ws[0] && IsSpace(ws[0]);
      }
    }
    MathPrefixKept(rule, bracket, repl, front, tail);
    CloserLeads(rule, bracket, repl, ws, post);
  }

  /** A text that starts with whitespace and a closing delimiter. */
  lemma CloserLeads(rule: Rule, bracket: char, repl: string, ws: string, post: string)
    requires CloserRule(rule, bracket, repl) && AllSpace(ws)
    ensures Sub(rule, ws + ['\\', bracket] + post) == repl + Sub(rule, post)
  {
    var s := ws + ['\\', bracket] + post;
    var e := |ws| + 2;
    CloserHit(rule, bracket, repl, [], ws, post);
    assert [] + ws + ['\\', bracket] + post == s;
    assert s[e..] == post;
    SubStep(rule, s, 0, Hit(e, repl));
    DelimiterLooksForward(rule, s, e, post);
    SubSuffix(rule, s, e, post);
  }

  lemma CloserHit(rule: Rule, bracket: char, repl: string, front: string, ws: string, post: string)
    requires CloserRule(rule, bracket, repl) && AllSpace(ws)
    ensures var s := front + ws + ['\\', bracket] + post;
      MatchAt(rule, s, |front|) == Some(Hit(|front| + |ws| + 2, repl))
  {
    var s := front + ws + ['\\', bracket] + post;
    var m := |front| + |ws|;
    assert SkipSpaces(s, |front|) == m by {
      forall k | |front| <= k < m ensures IsSpace(s[k]) {
        assert s[k] == ws[k - |front|];
      }
      assert s[m] == '\\' && !IsSpace(s[m]);
    }
    assert s[m + 1] == bracket;
  }

  /** The four passes, whatever the input. */
  function MathPasses(md: string): string {
    Sub(DisplayMathClose, Sub(DisplayMathOpen, Sub(InlineMathClose, Sub(InlineMathOpen, md))))
  }

  /** The empty-input guard of normalize_math_formulas changes nothing. */
  lemma MathGuardRedundant(md: string)
    ensures NormalizeMathFormulas(md) == MathPasses(md)
  {
  }

  /** The opening pass on a formula: its opening delimiter becomes the
      replacement, the formula and its closing delimiter are kept. */
  lemma FormulaOpened(rule: Rule, bracket: char, repl: string, closer: char,
                      pre: string, ws1: string, body: string, ws2: string, post: string)
    requires OpenerRule(rule, bracket, repl) && closer != bracket && closer != '\\'
    requires NotEscaping(pre, bracket) && NotEscaping(body, bracket)
    requires AllSpace(ws1) && AllSpace(ws2) && body != [] && !IsSpace(body[0])
    ensures Sub(rule, pre + ['\\', bracket] + ws1 + body + ws2 + ['\\', closer] + post)
         == pre + repl + (body + ws2 + ['\\', closer]) + Sub(rule, post)
  {
    var mid := body + ws2 + ['\\', closer];
    assert pre + ['\\', bracket] + ws1 + body + ws2 + ['\\', closer] + post
        == pre + ['\\', bracket] + ws1 + (mid + post);
    OpenerStep(rule, bracket, repl, pre, ws1, mid + post);
    SpaceNotEscaping(ws2, bracket);
    EscapeJoin(body, ws2, bracket);
    assert NotEscaping(['\\', closer], bracket) by {
      assert !EscapeAt(['\\', closer], 0, bracket);
    }
    EscapeJoin(body + ws2, ['\\', closer], bracket);
    MathPrefixKept(rule, bracket, repl, mid, post);
  }

  /** The closing pass on a formula whose opening delimiter is already
      `mark`: the whitespace and closing delimiter become the replacement. */
  lemma FormulaClosed(rule: Rule, bracket: char, repl: string, mark: string,
                      pre: string, body: string, ws2: string, post: string)
    requires CloserRule(rule, bracket, repl) && mark != [] && '\\' !in mark && bracket !in mark
    requires NotEscaping(pre, bracket) && NotEscaping(body, bracket)
    requires AllSpace(ws2) && body != [] && !IsSpace(body[|body| - 1])
    ensures Sub(rule, pre + mark + (body + ws2 + ['\\', bracket]) + post)
         == pre + mark + body + repl + Sub(rule, post)
  {
    var front := pre + mark + body;
    assert pre + mark + (body + ws2 + ['\\', bracket]) + post == front + ws2 + ['\\', bracket] + post;
    assert NotEscaping(mark, bracket);
    EscapeJoin(pre, mark, bracket);
    EscapeJoin(pre + mark, body, bracket);
    assert front[|front| - 1] == body[|body| - 1];
    CloserStep(rule, bracket, repl, front, ws2, post);
  }

  /** Inline math: `\(`, optional whitespace, the formula, optional
      whitespace, `\)` becomes "$formula$"; the text before it is kept and
      the text after it is normalised as a document of its own. The formula
      and the text before it may hold any LaTeX except the four math
      delimiters; the text after it may hold anything. */
  lemma InlineMathBecomesDollars(pre: string, ws1: string, body: string, ws2: string, post: string)
    requires NoMathDelimiter(pre) && NoMathDelimiter(body)
    requires AllSpace(ws1) && AllSpace(ws2)
    requires body != [] && !IsSpace(body[0]) && !IsSpace(body[|body| - 1])
    ensures NormalizeMathFormulas(pre + "\\(" + ws1 + body + ws2 + "\\)" + post)
         == pre + "$" + body + "$" + NormalizeMathFormulas(post)
  {
    var s := pre + "\\(" + ws1 + body + ws2 + "\\)" + post;
    var x := pre + "$" + body + "$";
    var p1 := Sub(InlineMathOpen, post);
    var p2 := Sub(InlineMathClose, p1);
    var p3 := Sub(DisplayMathOpen, p2);
    assert s == pre + ['\\', '('] + ws1 + body + ws2 + ['\\', ')'] + post;
    FormulaOpened(InlineMathOpen, '(', "$", ')', pre, ws1, body, ws2, post);
    FormulaClosed(InlineMathClose, ')', "$", "$", pre, body, ws2, p1);
    WrappedNotEscaping(pre, "$", body, '[');
    WrappedNotEscaping(pre, "$", body, ']');
    MathPrefixKept(DisplayMathOpen, '[', "\n$$\n", x, p2);
    MathPrefixKept(DisplayMathClose, ']', "\n$$\n", x, p3);
    MathGuardRedundant(s);
    MathGuardRedundant(post);
  }

  /** `mark` on both sides of `body` creates no escape. */
  lemma WrappedNotEscaping(pre: string, mark: string, body: string, c: char)
    requires NotEscaping(pre, c) && NotEscaping(body, c)
    requires mark != [] && '\\' !in mark && c !in mark
    ensures NotEscaping(pre + mark + body + mark, c)
  {
    assert NotEscaping(mark, c);
    EscapeJoin(pre, mark, c);
    EscapeJoin(pre + mark, body, c);
    EscapeJoin(pre + mark + body, mark, c);
  }

  /** Display math: `\[`, optional whitespace, the formula, optional
      whitespace, `\]` becomes the formula between two "$$" lines; the text
      before it is kept and the text after it is normalised as a document
      of its own. The formula and the text before it may hold any LaTeX
      except the four math delimiters; the text after it may hold anything. */
  lemma DisplayMathBecomesBlock(pre: string, ws1: string, body: string, ws2: string, post: string)
    requires NoMathDelimiter(pre) && NoMathDelimiter(body)
    requires AllSpace(ws1) && AllSpace(ws2)
    requires body != [] && !IsSpace(body[0]) && !IsSpace(body[|body| - 1])
    ensures NormalizeMathFormulas(pre + "\\[" + ws1 + body + ws2 + "\\]" + post)
         == pre + "\n$$\n" + body + "\n$$\n" + NormalizeMathFormulas(post)
  {
    var x := pre + "\\[" + ws1 + body + ws2 + "\\]";
    var s := x + post;
    var p1 := Sub(InlineMathOpen, post);
    var p2 := Sub(InlineMathClose, p1);
    DisplayIgnoredInline(pre, ws1, body, ws2, '(');
    DisplayIgnoredInline(pre, ws1, body, ws2, ')');
    MathPrefixKept(InlineMathOpen, '(', "$", x, post);
    MathPrefixKept(InlineMathClose, ')', "$", x, p1);
    assert x + p2 == pre + ['\\', '['] + ws1 + body + ws2 + ['\\', ']'] + p2;
    FormulaOpened(DisplayMathOpen, '[', "\n$$\n", ']', pre, ws1, body, ws2, p2);
    FormulaClosed(DisplayMathClose, ']', "\n$$\n", "\n$$\n", pre, body, ws2, Sub(DisplayMathOpen, p2));
    MathGuardRedundant(s);
    MathGuardRedundant(post);
  }

  /** A display formula holds no inline delimiter. */
  lemma DisplayIgnoredInline(pre: string, ws1: string, body: string, ws2: string, c: char)
    requires c == '(' || c == ')'
    requires NotEscaping(pre, c) && NotEscaping(body, c)
    requires AllSpace(ws1) && AllSpace(ws2)
    ensures var x := pre + "\\[" + ws1 + body + ws2 + "\\]";
      NotEscaping(x, c) && x[|x| - 1] == ']'
  {
    SpaceNotEscaping(ws1, c);
    SpaceNotEscaping(ws2, c);
    assert NotEscaping("\\[", c) && NotEscaping("\\]", c) by {
      assert !EscapeAt("\\[", 0, c) && !EscapeAt("\\]", 0, c);
    }
    EscapeJoin(pre, "\\[", c);
    EscapeJoin(pre + "\\[", ws1, c);
    EscapeJoin(pre + "\\[" + ws1, body, c);
    EscapeJoin(pre + "\\[" + ws1 + body, ws2, c);
    EscapeJoin(pre + "\\[" + ws1 + body + ws2, "\\]", c);
  }

  /** Text without a math delimiter is unchanged. */
  lemma MathWithoutDelimiterUnchanged(md: string)
    requires NoMathDelimiter(md)
    ensures NormalizeMathFormulas(md) == md
  {
    if md != "" {
      OpenerIdle(InlineMathOpen, '(', "$", md);
      CloserIdle(InlineMathClose, ')', "$", md);
      OpenerIdle(DisplayMathOpen, '[', "\n$$\n", md);
      CloserIdle(DisplayMathClose, ']', "\n$$\n", md);
    }
  }

  // ---------------------------------------------------------------------
  // clean_image_captions (main-two.py:322-324)
  // ---------------------------------------------------------------------

  /** Every image tag loses its alt text and keeps its path. */
  function CleanImageCaptions(md: string): (r: string)
    ensures md == "" ==> r == ""
  {
    if md == "" then "" else Sub(ImageCaption, md)
  }

  /** The guard for empty input changes nothing: substituting in the empty
      text gives the empty text anyway. */
  lemma CaptionGuardRedundant(md: string)
    ensures CleanImageCaptions(md) == Sub(ImageCaption, md)
  {
  }

  /** One image tag `![alt](path)` becomes `![](path)`; the text before it
      is kept and the text after it is cleaned on its own. */
  lemma CaptionDropped(pre: string, alt: string, path: string, post: string)
    requires '!' !in pre && ']' !in alt && ')' !in path && path != ""
    ensures CleanImageCaptions(pre + "![" + alt + "](" + path + ")" + post)
         == pre + "![](" + path + ")" + CleanImageCaptions(post)
  {
    var tag := "![" + alt + "](" + path + ")";
    var s := pre + "![" + alt + "](" + path + ")" + post;
    var e := |pre| + |tag|;
    var kept := "![](" + path + ")";
    TagParts(pre, alt, path, post);
    assert SubFrom(ImageCaption, s, 0) == pre + SubFrom(ImageCaption, s, |pre|) by {
      ThreeParts(s, pre, tag, post);
      CaptionIdle(s, 0, |pre|);
      SubCopies(ImageCaption, s, 0, |pre|);
    }
    assert SubFrom(ImageCaption, s, |pre|) == kept + SubFrom(ImageCaption, s, e) by {
      CaptionMatch(s, pre, alt, path, post);
      SubStep(ImageCaption, s, |pre|, Hit(e, kept));
    }
    assert SubFrom(ImageCaption, s, e) == Sub(ImageCaption, post) by {
      ThreeParts(s, pre, tag, post);
      CaptionSuffix(s, e, post);
    }
    CaptionGuardRedundant(s);
    CaptionGuardRedundant(post);
  }

  /** The tag of `pre + "![" + alt + "](" + path + ")" + post` as one piece. */
  lemma TagParts(pre: string, alt: string, path: string, post: string)
    ensures pre + "![" + alt + "](" + path + ")" + post == pre + ("![" + alt + "](" + path + ")") + post
  {
  }

  /** Searching for a character in a suffix finds it where searching the
      whole text does, moved by the suffix's start. */
  lemma FindCharShift(s: string, n: nat, t: string, k: nat, c: char)
    requires n <= |s| && s[n..] == t && k <= |t|
    ensures FindChar(s, n + k, c) == match FindChar(t, k, c)
      case None => None
      case Some(m) => Some(n + m)
  {
    match FindChar(t, k, c)
    case None =>
      forall m | n + k <= m < |s| ensures s[m] != c {
        assert s[m] == t[m - n] && !CharAt(t, m - n, c);
      }
    case Some(m) =>
      assert s[n + m] == t[m] && CharAt(s, n + m, c);
      forall j | n + k <= j < n + m ensures s[j] != c {
        assert s[j] == t[j - n] && !CharAt(t, j - n, c);
      }
  }

  /** The caption matcher looks only forward: in a suffix it finds the match
      it finds in the whole text, moved by the suffix's start. */
  lemma CaptionAtShift(s: string, n: nat, t: string, k: nat)
    requires n <= |s| && s[n..] == t && k <= |t|
    ensures CaptionAt(s, n + k) == ShiftHit(CaptionAt(t, k), n)
  {
    var i := n + k;
    if k + 1 < |t| {
      assert s[i] == t[k] && s[i + 1] == t[k + 1];
      if t[k] == '!' && t[k + 1] == '[' {
        FindCharShift(s, n, t, k + 2, ']');
        match FindChar(t, k + 2, ']')
        case None =>
        case Some(j) => CaptionTargetShift(s, n, t, j);
      }
    }
  }

  lemma CaptionTargetShift(s: string, n: nat, t: string, j: nat)
    requires n <= |s| && s[n..] == t && j < |t|
    ensures CaptionTarget(s, n + j) == ShiftHit(CaptionTarget(t, j), n)
  {
    if j + 1 < |t| {
      assert s[n + j + 1] == t[j + 1];
      if t[j + 1] == '(' {
        FindCharShift(s, n, t, j + 2, ')');
        match FindChar(t, j + 2, ')')
        case None =>
        case Some(q) =>
          SliceOfSuffix(s, n, t, j + 2, q);
      }
    }
  }

  /** Caption cleaning from where a suffix starts is caption cleaning of the suffix. */
  lemma CaptionSuffix(s: string, n: nat, t: string)
    requires n <= |s| && s[n..] == t
    ensures SubFrom(ImageCaption, s, n) == Sub(ImageCaption, t)
  {
    forall k | 0 <= k <= |t| ensures ShiftedAt(ImageCaption, s, n, t, k) {
      CaptionAtShift(s, n, t, k);
    }
    SubSuffix(ImageCaption, s, n, t);
  }

  /** The outer parts of a three-part text. */
  lemma ThreeParts<T>(s: seq<T>, pre: seq<T>, mid: seq<T>, post: seq<T>)
    requires s == pre + mid + post
    ensures s[..|pre|] == s[0..|pre|] == pre && s[|pre| + |mid|..] == s[|pre| + |mid|..|s|] == post
  {
  }

  /** The caption cleaner finds nothing in a stretch without '!'. */
  lemma CaptionIdle(s: string, i: nat, j: nat)
    requires i <= j <= |s| && '!' !in s[i..j]
    ensures forall k :: i <= k < j ==> MatchAt(ImageCaption, s, k).None?
  {
    forall k | i <= k < j ensures MatchAt(ImageCaption, s, k).None? {
      assert s[k] == s[i..j][k - i];
    }
  }

  lemma CaptionMatch(s: string, pre: string, alt: string, path: string, post: string)
    requires s == pre + "![" + alt + "](" + path + ")" + post
    requires ']' !in alt && ')' !in path && path != ""
    ensures MatchAt(ImageCaption, s, |pre|) == Some(Hit(|pre| + 5 + |alt| + |path|, "![](" + path + ")"))
  {
    var i := |pre|;
    var j := i + 2 + |alt|;
    var p := j + 2 + |path|;
    assert s[i] == '!' && s[i + 1] == '[';
    assert FindChar(s, i + 2, ']') == Some(j) by {
      assert CharAt(s, j, ']');
      forall n | i + 2 <= n < j ensures s[n] != ']' {
        assert s[n] == alt[n - i - 2];
      }
    }
    assert s[j + 1] == '(';
    assert FindChar(s, j + 2, ')') == Some(p) by {
      assert CharAt(s, p, ')');
      forall n | j + 2 <= n < p ensures s[n] != ')' {
        assert s[n] == path[n - j - 2];
      }
    }
    assert s[j + 2..p] == path;
  }

  /** Text without '!' has no image tag. */
  lemma CaptionsWithoutBangUnchanged(md: string)
    requires '!' !in md
    ensures CleanImageCaptions(md) == md
  {
    SubWithoutMatch(ImageCaption, md, 0);
  }

  /** A cleaned tag is left alone by a second cleaning. */
  lemma CaptionCleaningSettles(pre: string, alt: string, path: string, post: string)
    requires '!' !in pre && '!' !in post && ']' !in alt && ')' !in path && path != ""
    ensures var once := CleanImageCaptions(pre + "![" + alt + "](" + path + ")" + post);
      CleanImageCaptions(once) == once
  {
    CaptionDropped(pre, alt, path, post);
    CaptionDropped(pre, "", path, post);
    CaptionsWithoutBangUnchanged(post);
    assert pre + "![" + "" + "](" + path + ")" + post == pre + "![](" + path + ")" + post;
  }

  // ---------------------------------------------------------------------
  // count_markdown_words (main-two.py:404-410)
  // ---------------------------------------------------------------------

  /** The class `[\u4e00-\u9fff]`. */
  predicate IsCjk(c: char) {
    '\U{4E00}' <= c <= '\U{9FFF}'
  }

  predicate IsAsciiLetter(c: char) {
    ('a' <= c <= 'z') || ('A' <= c <= 'Z')
  }

  /** `isWord` is the class `\w`; on ASCII it is letters, digits and '_'.
      Beyond ASCII it follows the Unicode database, which this model takes
      as given. */
  predicate WordClass(isWord: char -> bool) {
    forall c: char :: c < '\U{80}' ==> (isWord(c) <==> IsAsciiLetter(c) || ('0' <= c <= '9') || c == '_')
  }

  /** Fenced code blocks, then `$$` blocks, are removed before counting. */
  function StripBlocks(md: string): string {
    Sub(DisplayMathBlock, Sub(CodeFence, md))
  }

  /** `len(re.findall(r'[\u4e00-\u9fff]', s))`. */
  function CjkCount(s: string): nat {
    |Filter(s, IsCjk)|
  }

  /** The end of the run of ASCII letters starting at `i`. */
  function LetterRunEnd(s: string, i: nat): (e: nat)
    requires i <= |s|
    ensures i <= e <= |s| && (e == |s| || !IsAsciiLetter(s[e]))
    ensures forall k :: i <= k < e ==> IsAsciiLetter(s[k])
    decreases |s| - i
  {
    if i < |s| && IsAsciiLetter(s[i]) then LetterRunEnd(s, i + 1) else i
  }

  /** `\b[a-zA-Z]+\b` matches at `i`: a run of ASCII letters that no word
      character precedes and no word character follows. */
  predicate WordStartsAt(s: string, i: nat, isWord: char -> bool)
    requires i <= |s|
  {
    i < |s| && IsAsciiLetter(s[i]) && (i == 0 || !isWord(s[i - 1]))
    && var e := LetterRunEnd(s, i); (e == |s| || !isWord(s[e]))
  }

  /** `re.findall(r'\b[a-zA-Z]+\b', s[i..])` counted: after a match the
      scan resumes at its end, otherwise one character later. */
  function WordsFrom(s: string, i: nat, isWord: char -> bool): nat
    requires i <= |s|
    decreases |s| - i
  {
    if i == |s| then 0
    else if WordStartsAt(s, i, isWord) then 1 + WordsFrom(s, LetterRunEnd(s, i), isWord)
    else WordsFrom(s, i + 1, isWord)
  }

  /** The number of positions from `i` on where a word starts. */
  function StartsFrom(s: string, i: nat, isWord: char -> bool): nat
    requires i <= |s|
    decreases |s| - i
  {
    if i == |s| then 0
    else (if WordStartsAt(s, i, isWord) then 1 else 0) + StartsFrom(s, i + 1, isWord)
  }

  /** No word starts inside a run of letters, after its first letter. */
  lemma {:induction false} NoStartInsideRun(s: string, i: nat, j: nat, isWord: char -> bool)
    requires WordClass(isWord)
    requires i < |s| && IsAsciiLetter(s[i]) && i < j <= LetterRunEnd(s, i)
    ensures StartsFrom(s, j, isWord) == StartsFrom(s, LetterRunEnd(s, i), isWord)
    decreases LetterRunEnd(s, i) - j
  {
    var e := LetterRunEnd(s, i);
    if j < e {
      assert IsAsciiLetter(s[j - 1]) && s[j - 1] < '\U{80}';
      assert !WordStartsAt(s, j, isWord);
      NoStartInsideRun(s, i, j + 1, isWord);
    }
  }

  /** The scan finds a word at every position where one starts, and
      nowhere else. */
  lemma {:induction false} ScanCountsEveryStart(s: string, i: nat, isWord: char -> bool)
    requires WordClass(isWord) && i <= |s|
    ensures WordsFrom(s, i, isWord) == StartsFrom(s, i, isWord)
    decreases |s| - i
  {
    if i < |s| {
      if WordStartsAt(s, i, isWord) {
        var e := LetterRunEnd(s, i);
        ScanCountsEveryStart(s, e, isWord);
        NoStartInsideRun(s, i, i + 1, isWord);
      } else {
        ScanCountsEveryStart(s, i + 1, isWord);
      }
    }
  }

  /** `count_markdown_words`: (total, CJK characters, English words). */
  function CountMarkdownWords(md: string, isWord: char -> bool): (r: (nat, nat, nat))
    ensures md == "" ==> r == (0, 0, 0)
    ensures r.0 == r.1 + r.2
  {
    if md == "" then (0, 0, 0)
    else
      var text := StripBlocks(md);
      var chinese := CjkCount(text);
      var english := WordsFrom(text, 0, isWord);
      (chinese + english, chinese, english)
  }

  /** The English count is the number of places in the text left after
      removing the blocks where a word starts. */
  lemma EnglishWordsAreStarts(md: string, isWord: char -> bool)
    requires WordClass(isWord)
    ensures CountMarkdownWords(md, isWord).2 == StartsFrom(StripBlocks(md), 0, isWord)
  {
    ScanCountsEveryStart(StripBlocks(md), 0, isWord);
  }

  /** Text that starts with a delimiter starts with its character. */
  lemma DelimiterHead(s: string, k: nat, d: string)
    requires d != ""
    ensures StartsAt(s, k, d) ==> s[k] == d[0]
  {
  }

  /** The two block rules look for their own delimiter. */
  lemma BlockRule(rule: Rule, d: string, s: string, i: nat)
    requires (rule == CodeFence && d == "```") || (rule == DisplayMathBlock && d == "$$")
    requires i <= |s|
    ensures MatchAt(rule, s, i) == BlockAt(s, i, d)
  {
  }

  /** A stretch without the delimiter's character is copied. */
  lemma BlockCopies(rule: Rule, d: string, s: string, i: nat, j: nat)
    requires (rule == CodeFence && d == "```") || (rule == DisplayMathBlock && d == "$$")
    requires i <= j <= |s| && d[0] !in s[i..j]
    ensures SubFrom(rule, s, i) == s[i..j] + SubFrom(rule, s, j)
  {
    forall k | i <= k < j ensures MatchAt(rule, s, k).None? {
      assert s[k] == s[i..j][k - i];
      DelimiterHead(s, k, d);
      BlockRule(rule, d, s, k);
    }
    SubCopies(rule, s, i, j);
  }

  /** `x` holds no start of the delimiter, not even one that runs on into a
      delimiter written right after it. */
  predicate NoDelimiterIn(x: string, d: string) {
    forall k :: 0 <= k < |x| ==> !StartsAt(x + d, k, d)
  }

  /** Text without the delimiter's character holds no start of it. */
  lemma NoCharNoDelimiter(x: string, d: string)
    requires d != "" && d[0] !in x
    ensures NoDelimiterIn(x, d)
  {
    forall k | 0 <= k < |x| ensures !StartsAt(x + d, k, d) {
      assert (x + d)[k] == x[k];
      DelimiterHead(x + d, k, d);
    }
  }

  /** Whether a delimiter starts inside `x` depends only on `x` and what follows it. */
  lemma DelimiterWithin(s: string, m: nat, x: string, d: string, k: nat)
    requires m + |x| + |d| <= |s| && s[m..m + |x| + |d|] == x + d && k <= |x|
    ensures StartsAt(s, m + k, d) == StartsAt(x + d, k, d)
  {
    StartsAtSlice(s, m + k, d);
    StartsAtSlice(x + d, k, d);
    var here, there := s[m + k..m + k + |d|], (x + d)[k..k + |d|];
    forall j | 0 <= j < |d| ensures here[j] == there[j] {
      assert s[m + k + j] == s[m..m + |x| + |d|][k + j];
    }
    assert here == there;
  }

  /** A block from one delimiter to the next is one match, removed whole. */
  lemma BlockSpan(s: string, i: nat, d: string, n: nat)
    requires d != "" && StartsAt(s, i, d) && StartsAt(s, i + |d| + n, d)
    requires forall k :: i + |d| <= k < i + |d| + n ==> !StartsAt(s, k, d)
    ensures BlockAt(s, i, d) == Some(Hit(i + |d| + n + |d|, ""))
  {
    FindDelimiterIs(s, i + |d|, i + |d| + n, d);
  }

  /** A delimiter followed by `body + d` opens a block that ends after it. */
  lemma BlockFound(s: string, i: nat, d: string, body: string)
    requires d != "" && i + |d| + |body| + |d| <= |s| && NoDelimiterIn(body, d)
    requires s[i..i + |d|] == d && s[i + |d|..i + |d| + |body| + |d|] == body + d
    ensures BlockAt(s, i, d) == Some(Hit(i + |d| + |body| + |d|, ""))
  {
    var m := i + |d|;
    StartsAtSlice(s, i, d);
    assert StartsAt(s, m + |body|, d) by {
      assert (body + d)[|body|..|body| + |d|] == d;
      StartsAtSlice(body + d, |body|, d);
      DelimiterWithin(s, m, body, d, |body|);
    }
    forall k | m <= k < m + |body| ensures !StartsAt(s, k, d) {
      DelimiterWithin(s, m, body, d, k - m);
    }
    BlockSpan(s, i, d, |body|);
  }

  /** No block starts inside a prefix without a delimiter start. */
  lemma BlockPrefixIdle(rule: Rule, d: string, s: string, pre: string)
    requires (rule == CodeFence && d == "```") || (rule == DisplayMathBlock && d == "$$")
    requires |pre| + |d| <= |s| && s[..|pre| + |d|] == pre + d && NoDelimiterIn(pre, d)
    ensures forall k :: 0 <= k < |pre| ==> MatchAt(rule, s, k).None?
  {
    forall k | 0 <= k < |pre| ensures MatchAt(rule, s, k).None? {
      assert s[0..|pre| + |d|] == pre + d;
      DelimiterWithin(s, 0, pre, d, k);
      BlockRule(rule, d, s, k);
    }
  }

  /** A delimited block disappears wherever it stands, and the rest of the
      text is processed as if it were alone. */
  lemma BlockDropped(rule: Rule, d: string, pre: string, body: string, post: string)
    requires (rule == CodeFence && d == "```") || (rule == DisplayMathBlock && d == "$$")
    requires NoDelimiterIn(pre, d) && NoDelimiterIn(body, d)
    ensures Sub(rule, pre + d + body + d + post) == pre + Sub(rule, post)
  {
    var s := pre + d + body + d + post;
    var m := |pre| + |d|;
    var e := m + |body| + |d|;
    assert s[..m] == pre + d && s[|pre|..m] == d && s[m..e] == body + d && s[e..] == post;
    BlockDroppedIn(rule, d, s, pre, body, post);
  }

  /** The same, for a text cut into those pieces. */
  lemma BlockDroppedIn(rule: Rule, d: string, s: string, pre: string, body: string, post: string)
    requires (rule == CodeFence && d == "```") || (rule == DisplayMathBlock && d == "$$")
    requires NoDelimiterIn(pre, d) && NoDelimiterIn(body, d)
    requires |pre| + |d| + |body| + |d| <= |s|
    requires s[..|pre| + |d|] == pre + d && s[|pre|..|pre| + |d|] == d
    requires s[|pre| + |d|..|pre| + |d| + |body| + |d|] == body + d
    requires s[|pre| + |d| + |body| + |d|..] == post
    ensures Sub(rule, s) == pre + Sub(rule, post)
  {
    var e := |pre| + |d| + |body| + |d|;
    BlockFound(s, |pre|, d, body);
    BlockPrefixIdle(rule, d, s, pre);
    SubCopies(rule, s, 0, |pre|);
    assert s[0..|pre|] == pre by {
      assert s[0..|pre|] == s[..|pre| + |d|][..|pre|];
    }
    BlockSkipped(rule, d, s, |pre|, e);
    BlockLooksForward(rule, s, e, post);
    SubSuffix(rule, s, e, post);
  }

  /** A delimited block between two stretches without the delimiter's
      character disappears, and the stretches are kept. */
  lemma BlockRemoved(rule: Rule, d: string, pre: string, body: string, post: string)
    requires (rule == CodeFence && d == "```") || (rule == DisplayMathBlock && d == "$$")
    requires d[0] !in pre && d[0] !in body && d[0] !in post
    ensures Sub(rule, pre + d + body + d + post) == pre + post
  {
    NoCharNoDelimiter(pre, d);
    NoCharNoDelimiter(body, d);
    BlockDropped(rule, d, pre, body, post);
    NoBlock(rule, d, post);
  }

  /** A block found at `i` is skipped with nothing emitted. */
  lemma BlockSkipped(rule: Rule, d: string, s: string, i: nat, e: nat)
    requires (rule == CodeFence && d == "```") || (rule == DisplayMathBlock && d == "$$")
    requires i < |s| && BlockAt(s, i, d) == Some(Hit(e, ""))
    ensures SubFrom(rule, s, i) == SubFrom(rule, s, e)
  {
    BlockRule(rule, d, s, i);
    SubStep(rule, s, i, Hit(e, ""));
  }

  /** Text without the delimiter's character has no block. */
  lemma NoBlock(rule: Rule, d: string, s: string)
    requires (rule == CodeFence && d == "```") || (rule == DisplayMathBlock && d == "$$")
    requires d[0] !in s
    ensures Sub(rule, s) == s
  {
    assert s[0..|s|] == s;
    BlockCopies(rule, d, s, 0, |s|);
  }

  /** A prefix without the delimiter's character is copied, and the rest is
      processed as if it were alone. */
  lemma BlockFreePrefix(rule: Rule, d: string, pre: string, post: string)
    requires (rule == CodeFence && d == "```") || (rule == DisplayMathBlock && d == "$$")
    requires d[0] !in pre
    ensures Sub(rule, pre + post) == pre + Sub(rule, post)
  {
    var s := pre + post;
    assert s[0..|pre|] == pre && s[|pre|..] == post;
    BlockCopies(rule, d, s, 0, |pre|);
    BlockLooksForward(rule, s, |pre|, post);
    SubSuffix(rule, s, |pre|, post);
  }

  /** Nothing inside a fenced code block is counted, whatever follows it. */
  lemma CodeBlockNotCounted(pre: string, code: string, post: string, isWord: char -> bool)
    requires '`' !in pre && NoDelimiterIn(code, "```")
    ensures StripBlocks(pre + "```" + code + "```" + post) == StripBlocks(pre + post)
    ensures CountMarkdownWords(pre + "```" + code + "```" + post, isWord) == CountMarkdownWords(pre + post, isWord)
  {
    NoCharNoDelimiter(pre, "```");
    BlockDropped(CodeFence, "```", pre, code, post);
    BlockFreePrefix(CodeFence, "```", pre, post);
  }

  /** Nothing inside a `$$` block is counted, whatever follows it. */
  lemma MathBlockNotCounted(pre: string, math: string, post: string, isWord: char -> bool)
    requires '`' !in pre && '$' !in pre
    requires '`' !in math && NoDelimiterIn(math, "$$")
    ensures StripBlocks(pre + "$$" + math + "$$" + post) == StripBlocks(pre + post)
    ensures CountMarkdownWords(pre + "$$" + math + "$$" + post, isWord) == CountMarkdownWords(pre + post, isWord)
  {
    var block := pre + "$$" + math + "$$";
    var rest := Sub(CodeFence, post);
    assert '`' !in block;
    assert pre + "$$" + math + "$$" + post == block + post;
    BlockFreePrefix(CodeFence, "```", block, post);
    NoCharNoDelimiter(pre, "$$");
    BlockDropped(DisplayMathBlock, "$$", pre, math, rest);
    assert block + rest == pre + "$$" + math + "$$" + rest;
    BlockFreePrefix(CodeFence, "```", pre, post);
    BlockFreePrefix(DisplayMathBlock, "$$", pre, rest);
  }

  /** The CJK count adds up over concatenation and never exceeds the length. */
  lemma CjkCountAdds(a: string, b: string)
    ensures CjkCount(a + b) == CjkCount(a) + CjkCount(b)
    ensures CjkCount(a) <= |a|
  {
    FilterAppend(a, b, IsCjk);
  }
}
