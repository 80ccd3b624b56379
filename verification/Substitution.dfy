/** Python's `re.sub(pattern, repl, text)` for the handful of patterns the
    converter uses, written as explicit matchers over character sequences.

    `re.sub` scans left to right: at each position it tries the pattern; on a
    match it emits the replacement and resumes after the match, otherwise it
    copies one character and moves on. None of the patterns here can match
    the empty string, so that is the whole algorithm (`SubFrom`). Each `Rule`
    names one pattern; `MatchAt` says whether it matches at a position, where
    the match ends, and what the replacement is (for patterns whose
    replacement refers to a group). */
module Substitution {
  import opened Common

  datatype Rule =
    | LazyImage         // comparator.py:39  an image tag, alt text and path on one line; replaced by nothing
    | LazyLink          // comparator.py:40  a link tag on one line; replaced by its label
    | MarkupChar        // comparator.py:41  one of '#', '*', '`'; removed
    | SpaceRun          // comparator.py:42/46  a run of whitespace; removed
    | InlineMathOpen    // main-two.py:315  backslash, '(' and following whitespace; becomes "$"
    | InlineMathClose   // main-two.py:316  whitespace before backslash and ')'; becomes "$"
    | DisplayMathOpen   // main-two.py:317  backslash, '[' and following whitespace; becomes "\n$$\n"
    | DisplayMathClose  // main-two.py:318  whitespace before backslash and ']'; becomes "\n$$\n"
    | ImageCaption      // main.py:119, main-two.py:324  an image tag; its alt text is dropped, its path kept
    | CodeFence         // main-two.py:406  from a triple backtick to the next one; removed
    | DisplayMathBlock  // main-two.py:407  from "$$" to the next "$$"; removed

  /** A match ends (exclusively) at `end` and is replaced by `replacement`. */
  datatype Hit = Hit(end: nat, replacement: string)

  /** Rules whose replacement is never longer than the text it replaces. */
  predicate Shrinking(rule: Rule) {
    rule in {LazyImage, LazyLink, MarkupChar, SpaceRun, CodeFence, DisplayMathBlock}
  }

  // ---------------------------------------------------------------------
  // Scanning helpers
  // ---------------------------------------------------------------------

  /** `c` is at position `n`. */
  predicate CharAt(s: string, n: int, c: char) {
    0 <= n < |s| && s[n] == c
  }

  /** The first `c` at or after `k`, whatever lies between. */
  function FindChar(s: string, k: nat, c: char): (r: Option<nat>)
    requires k <= |s|
    ensures r.Some? ==> k <= r.value < |s| && s[r.value] == c
    ensures r.Some? ==> forall n :: k <= n < r.value ==> !CharAt(s, n, c)
    ensures r.None? ==> forall n :: k <= n < |s| ==> !CharAt(s, n, c)
    decreases |s| - k
  {
    if k == |s| then None
    else if s[k] == c then Some(k)
    else FindChar(s, k + 1, c)
  }

  /** The first `c` at or after `k` on the same line (`.*?` cannot cross a newline). */
  function FindOnLine(s: string, k: nat, c: char): (r: Option<nat>)
    requires k <= |s| && c != '\n'
    ensures r.Some? ==> k <= r.value < |s| && s[r.value] == c
    ensures r.Some? ==> forall n :: k <= n < r.value ==> s[n] != c && s[n] != '\n'
    ensures r.None? ==> forall n :: k <= n < |s| && s[n] == c ==> exists m :: k <= m < n && s[m] == '\n'
    decreases |s| - k
  {
    if k == |s| then None
    else if s[k] == c then Some(k)
    else if s[k] == '\n' then None
    else FindOnLine(s, k + 1, c)
  }

  /** The first "](" at or after `k` on the same line. */
  function FindLabelEnd(s: string, k: nat): (r: Option<nat>)
    requires k <= |s|
    ensures r.Some? ==> k <= r.value && LabelEndAt(s, r.value)
    ensures r.Some? ==> forall n :: k <= n < r.value ==> s[n] != '\n'
    ensures r.Some? ==> forall n :: k <= n < r.value ==> !LabelEndAt(s, n)
    ensures r.None? ==> forall n :: k <= n && LabelEndAt(s, n) ==> exists m :: k <= m < n && s[m] == '\n'
    decreases |s| - k
  {
    if k + 1 >= |s| then None
    else if s[k] == '\n' then None
    else if LabelEndAt(s, k) then Some(k)
    else FindLabelEnd(s, k + 1)
  }

  /** "](" starts at `n`. */
  predicate LabelEndAt(s: string, n: nat) {
    n + 1 < |s| && s[n] == ']' && s[n + 1] == '('
  }

  /** The first occurrence of `d` at or after `k`, whatever lies between. */
  function FindDelimiter(s: string, k: nat, d: string): (r: Option<nat>)
    requires k <= |s| && d != ""
    ensures r.Some? ==> k <= r.value && StartsAt(s, r.value, d)
    decreases |s| - k
  {
    if k + |d| > |s| then None
    else if StartsAt(s, k, d) then Some(k)
    else FindDelimiter(s, k + 1, d)
  }

  /** The delimiter found is the first one: none starts before it, and none
      at all where none is found. */
  lemma {:induction false} FindDelimiterFirst(s: string, k: nat, d: string)
    requires k <= |s| && d != ""
    ensures var r := FindDelimiter(s, k, d);
      r.Some? ==> forall n :: k <= n < r.value ==> !StartsAt(s, n, d)
    ensures FindDelimiter(s, k, d).None? ==> forall n :: k <= n ==> !StartsAt(s, n, d)
    decreases |s| - k
  {
    if k + |d| <= |s| && !StartsAt(s, k, d) {
      FindDelimiterFirst(s, k + 1, d);
    }
  }

  /** A delimiter with none before it, back to `k`, is the one found from `k`. */
  lemma {:induction false} FindDelimiterIs(s: string, k: nat, q: nat, d: string)
    requires k <= q && d != "" && StartsAt(s, q, d)
    requires forall n :: k <= n < q ==> !StartsAt(s, n, d)
    ensures FindDelimiter(s, k, d) == Some(q)
    decreases q - k
  {
    if k < q {
      assert !StartsAt(s, k, d);
      FindDelimiterIs(s, k + 1, q, d);
    }
  }

  /** Delimiter `d` starts at `i`, compared character by character. */
  predicate StartsAt(s: string, i: nat, d: string)
    decreases |d|
  {
    i + |d| <= |s| && (d == [] || (s[i] == d[0] && StartsAt(s, i + 1, d[1..])))
  }

  /** A delimiter starts at `i` exactly when the stretch there is the delimiter. */
  lemma {:induction false} StartsAtSlice(s: string, i: nat, d: string)
    ensures StartsAt(s, i, d) <==> i + |d| <= |s| && s[i..i + |d|] == d
    decreases |d|
  {
    if i + |d| <= |s| && d != [] {
      StartsAtSlice(s, i + 1, d[1..]);
      assert s[i..i + |d|] == [s[i]] + s[i + 1..i + 1 + |d[1..]|];
      assert d == [d[0]] + d[1..];
    }
  }

  // ---------------------------------------------------------------------
  // Matchers
  // ---------------------------------------------------------------------

  /** A link tag starting with '[' at `i`, both lazy groups kept on one line:
      the label runs to the first "](" on the line, the target to the first
      ')' after it on the line. If that target has no ')' on the line, no
      later "](" can have one either, so there is no match at `i`. */
  function LinkAt(s: string, i: nat): (h: Option<Hit>)
    requires i <= |s|
    ensures h.Some? ==> i < h.value.end <= |s| && |h.value.replacement| < h.value.end - i
  {
    if i < |s| && s[i] == '[' then
      match FindLabelEnd(s, i + 1)
      case None => None
      case Some(q) =>
        match FindOnLine(s, q + 2, ')')
        case None => None
        case Some(p) => Some(Hit(p + 1, s[i + 1..q]))
    else None
  }

  /** A `\` followed by `bracket`, then any whitespace. */
  function OpenerAt(s: string, i: nat, bracket: char, repl: string): (h: Option<Hit>)
    requires i <= |s|
    ensures h.Some? ==> i < h.value.end <= |s| && h.value.replacement == repl
  {
    if i + 1 < |s| && s[i] == '\\' && s[i + 1] == bracket then Some(Hit(SkipSpaces(s, i + 2), repl))
    else None
  }

  /** Any whitespace, then a `\` followed by `bracket`. The greedy `\s*` takes
      the whole run; giving characters back cannot help, as they are
      whitespace and not a backslash. */
  function CloserAt(s: string, i: nat, bracket: char, repl: string): (h: Option<Hit>)
    requires i <= |s|
    ensures h.Some? ==> i < h.value.end <= |s| && h.value.replacement == repl
  {
    var m := SkipSpaces(s, i);
    if m + 1 < |s| && s[m] == '\\' && s[m + 1] == bracket then Some(Hit(m + 2, repl))
    else None
  }

  /** An image tag for caption cleaning: after "![", the alt text is every
      character up to the first ']' (newlines included), then "(", then a
      non-empty path up to the first ')'. The tag becomes "![](path)". */
  function CaptionAt(s: string, i: nat): (h: Option<Hit>)
    requires i <= |s|
    ensures h.Some? ==> i < h.value.end <= |s|
  {
    if i + 1 < |s| && s[i] == '!' && s[i + 1] == '[' then
      match FindChar(s, i + 2, ']')
      case None => None
      case Some(j) => CaptionTarget(s, j)
    else None
  }

  /** The part of an image tag after the ']' at `j`: "(", a non-empty path
      up to the first ')', and ')'. */
  function CaptionTarget(s: string, j: nat): (h: Option<Hit>)
    requires j < |s|
    ensures h.Some? ==> j < h.value.end <= |s|
  {
    if j + 1 < |s| && s[j + 1] == '(' then
      match FindChar(s, j + 2, ')')
      case None => None
      case Some(p) => if p > j + 2 then Some(Hit(p + 1, "![](" + s[j + 2..p] + ")")) else None
    else None
  }

  /** From delimiter `d` at `i` to the first `d` after it (`[\s\S]*?` crosses lines). */
  function BlockAt(s: string, i: nat, d: string): (h: Option<Hit>)
    requires i <= |s| && d != ""
    ensures h.Some? ==> i < h.value.end <= |s| && h.value.replacement == ""
  {
    if StartsAt(s, i, d) then
      match FindDelimiter(s, i + |d|, d)
      case None => None
      case Some(p) => Some(Hit(p + |d|, ""))
    else None
  }

  /** A block match runs from the delimiter at `i` to the end of the first
      delimiter after it; without a closing delimiter there is no match. */
  lemma BlockAtDelimits(s: string, i: nat, d: string)
    requires i <= |s| && d != ""
    ensures var h := BlockAt(s, i, d);
      h.Some? ==> StartsAt(s, i, d) && i + 2 * |d| <= h.value.end && StartsAt(s, h.value.end - |d|, d)
    ensures var h := BlockAt(s, i, d);
      h.Some? ==> forall n :: i + |d| <= n < h.value.end - |d| ==> !StartsAt(s, n, d)
    ensures BlockAt(s, i, d).None? <==> !StartsAt(s, i, d) || forall n :: i + |d| <= n ==> !StartsAt(s, n, d)
  {
    if StartsAt(s, i, d) {
      FindDelimiterFirst(s, i + |d|, d);
      match FindDelimiter(s, i + |d|, d)
      case None =>
      case Some(q) =>
        DelimiterAfter(s, i + |d|, q, d);
    }
  }

  lemma DelimiterAfter(s: string, k: nat, q: nat, d: string)
    requires k <= q && StartsAt(s, q, d)
    ensures !forall n :: k <= n ==> !StartsAt(s, n, d)
  {
  }

  function MatchAt(rule: Rule, s: string, i: nat): (h: Option<Hit>)
    requires i <= |s|
    ensures h.Some? ==> i < h.value.end <= |s|
    ensures h.Some? && Shrinking(rule) ==> |h.value.replacement| <= h.value.end - i
  {
    match rule
    case LazyImage =>
      if i < |s| && s[i] == '!' then
        match LinkAt(s, i + 1)
        case None => None
        case Some(h) => Some(Hit(h.end, ""))
      else None
    case LazyLink => LinkAt(s, i)
    case MarkupChar => if i < |s| && IsMarkup(s[i]) then Some(Hit(i + 1, "")) else None
    case SpaceRun => if i < |s| && IsSpace(s[i]) then Some(Hit(SkipSpaces(s, i), "")) else None
    case InlineMathOpen => OpenerAt(s, i, '(', "$")
    case InlineMathClose => CloserAt(s, i, ')', "$")
    case DisplayMathOpen => OpenerAt(s, i, '[', "\n$$\n")
    case DisplayMathClose => CloserAt(s, i, ']', "\n$$\n")
    case ImageCaption => CaptionAt(s, i)
    case CodeFence => BlockAt(s, i, "```")
    case DisplayMathBlock => BlockAt(s, i, "$$")
  }

  // ---------------------------------------------------------------------
  // re.sub
  // ---------------------------------------------------------------------

  /** `re.sub` applied to the text from position `i` on. */
  function SubFrom(rule: Rule, s: string, i: nat): string
    requires i <= |s|
    decreases |s| - i
  {
    if i == |s| then []
    else match MatchAt(rule, s, i)
      case Some(h) => h.replacement + SubFrom(rule, s, h.end)
      case None => [s[i]] + SubFrom(rule, s, i + 1)
  }

  function Sub(rule: Rule, s: string): string {
    SubFrom(rule, s, 0)
  }

  /** Where the pattern matches at `i`, the replacement is emitted and the
      scan resumes after the match. */
  lemma SubStep(rule: Rule, s: string, i: nat, h: Hit)
    requires i < |s| && MatchAt(rule, s, i) == Some(h)
    ensures SubFrom(rule, s, i) == h.replacement + SubFrom(rule, s, h.end)
  {
  }

  /** Where the pattern matches nowhere in `s[i..j]`, that stretch is copied. */
  lemma {:induction false} SubCopies(rule: Rule, s: string, i: nat, j: nat)
    requires i <= j <= |s|
    requires forall k :: i <= k < j ==> MatchAt(rule, s, k).None?
    ensures SubFrom(rule, s, i) == s[i..j] + SubFrom(rule, s, j)
    decreases j - i
  {
    if i < j {
      SubSkip(rule, s, i);
      SubCopies(rule, s, i + 1, j);
      assert s[i..j] == [s[i]] + s[i + 1..j];
      AppendAssoc([s[i]], s[i + 1..j], SubFrom(rule, s, j));
    }
  }

  lemma AppendAssoc<T>(a: seq<T>, b: seq<T>, c: seq<T>)
    ensures a + (b + c) == (a + b) + c
  {
  }

  /** Where the pattern does not match at `i`, that character is copied. */
  lemma SubSkip(rule: Rule, s: string, i: nat)
    requires i < |s| && MatchAt(rule, s, i).None?
    ensures SubFrom(rule, s, i) == [s[i]] + SubFrom(rule, s, i + 1)
  {
  }

  /** Where the pattern matches once, at `i`, and nowhere else before or
      after that match, only the matched stretch is replaced. */
  lemma SubOneMatch(rule: Rule, s: string, i: nat, h: Hit)
    requires i < |s| && MatchAt(rule, s, i) == Some(h)
    requires forall k :: 0 <= k < i ==> MatchAt(rule, s, k).None?
    requires forall k :: h.end <= k < |s| ==> MatchAt(rule, s, k).None?
    ensures Sub(rule, s) == s[..i] + h.replacement + s[h.end..]
  {
    SubCopies(rule, s, 0, i);
    SubStep(rule, s, i, h);
    SubWithoutMatch(rule, s, h.end);
    assert s[0..i] == s[..i];
    AppendAssoc(s[..i], h.replacement, s[h.end..]);
  }

  /** Moves an optional match by `n` positions. */
  function ShiftHit(h: Option<Hit>, n: nat): (r: Option<Hit>)
    ensures r.None? <==> h.None?
    ensures h.Some? ==> r.value.end == h.value.end + n && r.value.replacement == h.value.replacement
  {
    match h
    case None => None
    case Some(x) => Some(Hit(x.end + n, x.replacement))
  }

  /** The rule looks only forward: in the suffix `t` of `s` that starts at
      `n` it finds, at every position, the match it finds in `s`, moved. */
  predicate LooksForward(rule: Rule, s: string, n: nat, t: string)
    requires n <= |s| && s[n..] == t
  {
    forall k :: 0 <= k <= |t| ==> ShiftedAt(rule, s, n, t, k)
  }

  /** At `k` of the suffix the rule finds the match it finds at `n + k` of the text. */
  predicate ShiftedAt(rule: Rule, s: string, n: nat, t: string, k: nat)
    requires n <= |s| && s[n..] == t && k <= |t|
  {
    MatchAt(rule, s, n + k) == ShiftHit(MatchAt(rule, t, k), n)
  }

  /** The characters of a suffix are those of the text, moved. */
  lemma SliceOfSuffix(s: string, n: nat, t: string, a: nat, b: nat)
    requires n <= |s| && s[n..] == t && a <= b <= |t|
    ensures s[n + a..n + b] == t[a..b]
  {
    forall m | 0 <= m < b - a ensures s[n + a..n + b][m] == t[a..b][m] {
      assert s[n + a + m] == t[a + m];
    }
  }

  /** For a rule that looks only forward, `re.sub` resumed at the start of a
      suffix is `re.sub` of the suffix on its own. */
  lemma SubSuffix(rule: Rule, s: string, n: nat, t: string)
    requires n <= |s| && s[n..] == t && LooksForward(rule, s, n, t)
    ensures SubFrom(rule, s, n) == Sub(rule, t)
  {
    var ms, mt := Matches(rule, s), Matches(rule, t);
    forall k | 0 <= k <= |t| ensures ms[n + k] == ShiftHit(mt[k], n) {
      assert ShiftedAt(rule, s, n, t, k);
    }
    SubIsScan(rule, s, n);
    SubIsScan(rule, t, 0);
    ScanShift(s, ms, n, t, mt, 0);
  }

  /** Every match in a table of matches lies within the text, after its start. */
  predicate HitsFit(s: string, ms: seq<Option<Hit>>) {
    |ms| == |s| + 1 && forall j :: 0 <= j < |ms| && ms[j].Some? ==> j < ms[j].value.end <= |s|
  }

  /** The scan of `re.sub` driven by a table of the match found at each position. */
  function Scan(s: string, ms: seq<Option<Hit>>, i: nat): string
    requires HitsFit(s, ms) && i <= |s|
    decreases |s| - i
  {
    if i == |s| then []
    else match ms[i]
      case Some(h) => h.replacement + Scan(s, ms, h.end)
      case None => [s[i]] + Scan(s, ms, i + 1)
  }

  /** The table of the matches a rule finds in a text. */
  function Matches(rule: Rule, s: string): (ms: seq<Option<Hit>>)
    ensures HitsFit(s, ms)
    ensures forall j :: 0 <= j <= |s| ==> ms[j] == MatchAt(rule, s, j)
  {
    seq(|s| + 1, j requires 0 <= j <= |s| => MatchAt(rule, s, j))
  }

  /** `re.sub` is the scan driven by the rule's table of matches. */
  lemma {:induction false} SubIsScan(rule: Rule, s: string, i: nat)
    requires i <= |s|
    ensures SubFrom(rule, s, i) == Scan(s, Matches(rule, s), i)
    decreases |s| - i
  {
    if i < |s| {
      match MatchAt(rule, s, i)
      case None => SubIsScan(rule, s, i + 1);
      case Some(h) => SubIsScan(rule, s, h.end);
    }
  }

  /** Two scans whose tables agree, moved by `n`, produce the same text. */
  lemma {:induction false} ScanShift(s: string, ms: seq<Option<Hit>>, n: nat, t: string, mt: seq<Option<Hit>>, k: nat)
    requires n <= |s| && s[n..] == t && HitsFit(s, ms) && HitsFit(t, mt) && k <= |t|
    requires forall j :: 0 <= j <= |t| ==> ms[n + j] == ShiftHit(mt[j], n)
    ensures Scan(s, ms, n + k) == Scan(t, mt, k)
    decreases |t| - k
  {
    if k < |t| {
      assert s[n + k] == t[k] && ms[n + k] == ShiftHit(mt[k], n);
      match mt[k]
      case None =>
        ScanShift(s, ms, n, t, mt, k + 1);
      case Some(h) =>
        assert k < h.end <= |t| && ms[n + k] == Some(Hit(n + h.end, h.replacement));
        ScanShift(s, ms, n, t, mt, h.end);
    }
  }

  /** Where nothing matches before `n`, `re.sub` copies the text up to `n`
      and then treats the rest as a text of its own. */
  lemma SubAfterPrefix(rule: Rule, s: string, n: nat, t: string)
    requires n <= |s| && s[n..] == t && LooksForward(rule, s, n, t)
    requires forall k :: 0 <= k < n ==> MatchAt(rule, s, k).None?
    ensures Sub(rule, s) == s[..n] + Sub(rule, t)
  {
    SubCopies(rule, s, 0, n);
    SubSuffix(rule, s, n, t);
    assert s[0..n] == s[..n];
  }

  lemma BlockAtShift(s: string, n: nat, t: string, k: nat, d: string)
    requires n <= |s| && s[n..] == t && k <= |t| && d != ""
    ensures BlockAt(s, n + k, d) == ShiftHit(BlockAt(t, k, d), n)
  {
    SuffixChars(s, n, t);
    StartsAtShift(s, n, t, k, d);
    if k + |d| <= |t| {
      FindDelimiterShift(s, n, t, k + |d|, d);
    }
    BlockAtMoved(s, n, t, k, d);
  }

  /** The characters of a suffix, one by one. */
  predicate SameFrom(s: string, n: nat, t: string) {
    n + |t| == |s| && forall j :: 0 <= j < |t| ==> s[n + j] == t[j]
  }

  lemma SuffixChars(s: string, n: nat, t: string)
    requires n <= |s| && s[n..] == t
    ensures SameFrom(s, n, t)
  {
  }

  /** A block match moves with its opening delimiter and the closing one it finds. */
  lemma BlockAtMoved(s: string, n: nat, t: string, k: nat, d: string)
    requires n + k <= |s| && k <= |t| && d != ""
    requires StartsAt(s, n + k, d) == StartsAt(t, k, d)
    requires k + |d| <= |t| ==>
      n + k + |d| <= |s| &&
      FindDelimiter(s, n + (k + |d|), d) == match FindDelimiter(t, k + |d|, d)
        case None => None
        case Some(m) => Some(n + m)
    ensures BlockAt(s, n + k, d) == ShiftHit(BlockAt(t, k, d), n)
  {
    if StartsAt(t, k, d) && FindDelimiter(t, k + |d|, d).Some? {
      var m := FindDelimiter(t, k + |d|, d).value;
      BlockAtFound(t, k, d, m);
      BlockAtFound(s, n + k, d, n + m);
    }
  }

  lemma BlockAtFound(s: string, i: nat, d: string, p: nat)
    requires i + |d| <= |s| && d != "" && StartsAt(s, i, d) && FindDelimiter(s, i + |d|, d) == Some(p)
    ensures BlockAt(s, i, d) == Some(Hit(p + |d|, ""))
  {
  }

  /** The greedy whitespace run in a suffix ends where it ends in the text. */
  lemma {:induction false} SkipSpacesShift(s: string, n: nat, t: string, k: nat)
    requires n <= |s| && s[n..] == t && k <= |t|
    ensures SkipSpaces(s, n + k) == n + SkipSpaces(t, k)
    decreases |t| - k
  {
    if k < |t| {
      assert s[n + k] == t[k];
      if IsSpace(t[k]) {
        SkipSpacesShift(s, n, t, k + 1);
      }
    }
  }

  /** The math-delimiter matchers look only forward. */
  lemma DelimiterLooksForward(rule: Rule, s: string, n: nat, t: string)
    requires rule in {InlineMathOpen, InlineMathClose, DisplayMathOpen, DisplayMathClose}
    requires n <= |s| && s[n..] == t
    ensures LooksForward(rule, s, n, t)
  {
    forall k | 0 <= k <= |t| ensures ShiftedAt(rule, s, n, t, k) {
      DelimiterAtShift(rule, s, n, t, k);
    }
  }

  lemma DelimiterAtShift(rule: Rule, s: string, n: nat, t: string, k: nat)
    requires rule in {InlineMathOpen, InlineMathClose, DisplayMathOpen, DisplayMathClose}
    requires n <= |s| && s[n..] == t && k <= |t|
    ensures MatchAt(rule, s, n + k) == ShiftHit(MatchAt(rule, t, k), n)
  {
    if rule == InlineMathOpen || rule == DisplayMathOpen {
      if k + 1 < |t| {
        assert s[n + k] == t[k] && s[n + k + 1] == t[k + 1];
        SkipSpacesShift(s, n, t, k + 2);
      }
    } else {
      SkipSpacesShift(s, n, t, k);
      var m := SkipSpaces(t, k);
      if m + 1 < |t| {
        assert s[n + m] == t[m] && s[n + m + 1] == t[m + 1];
      }
    }
  }

  /** A delimiter starts in a suffix where it starts in the text. */
  lemma {:induction false} StartsAtShift(s: string, n: nat, t: string, k: nat, d: string)
    requires SameFrom(s, n, t) && k <= |t|
    ensures StartsAt(s, n + k, d) == StartsAt(t, k, d)
    decreases |d|
  {
    if d != [] && k < |t| {
      assert s[n + k] == t[k];
      StartsAtShift(s, n, t, k + 1, d[1..]);
    }
  }

  lemma {:induction false} FindDelimiterShift(s: string, n: nat, t: string, k: nat, d: string)
    requires SameFrom(s, n, t) && k <= |t| && d != ""
    ensures FindDelimiter(s, n + k, d) == match FindDelimiter(t, k, d)
      case None => None
      case Some(m) => Some(n + m)
    decreases |t| - k
  {
    if k + |d| <= |t| {
      StartsAtShift(s, n, t, k, d);
      if !StartsAt(t, k, d) {
        FindDelimiterShift(s, n, t, k + 1, d);
      }
    }
  }

  /** The block matchers look only forward. */
  lemma BlockLooksForward(rule: Rule, s: string, n: nat, t: string)
    requires rule == CodeFence || rule == DisplayMathBlock
    requires n <= |s| && s[n..] == t
    ensures LooksForward(rule, s, n, t)
  {
    var d := if rule == CodeFence then "```" else "$$";
    forall k | 0 <= k <= |t| ensures ShiftedAt(rule, s, n, t, k) {
      BlockAtShift(s, n, t, k, d);
    }
  }

  /** A rule whose replacement never exceeds what it replaces never lengthens the text. */
  lemma {:induction false} SubShrinks(rule: Rule, s: string, i: nat)
    requires i <= |s| && Shrinking(rule)
    ensures |SubFrom(rule, s, i)| <= |s| - i
    decreases |s| - i
  {
    if i < |s| {
      match MatchAt(rule, s, i)
      case Some(h) => SubShrinks(rule, s, h.end);
      case None => SubShrinks(rule, s, i + 1);
    }
  }

  /** Where the pattern matches nowhere, the text comes back unchanged. */
  lemma {:induction false} SubWithoutMatch(rule: Rule, s: string, i: nat)
    requires i <= |s|
    requires forall k :: i <= k < |s| ==> MatchAt(rule, s, k).None?
    ensures SubFrom(rule, s, i) == s[i..]
    decreases |s| - i
  {
    if i < |s| {
      SubWithoutMatch(rule, s, i + 1);
      assert s[i..] == [s[i]] + s[i + 1..];
    }
  }

  /** Removing whitespace runs deletes exactly the whitespace characters and
      keeps every other character, in order. */
  lemma {:induction false} SpaceRunIsFilter(s: string, i: nat)
    requires i <= |s|
    ensures SubFrom(SpaceRun, s, i) == Filter(s[i..], NotSpace)
    decreases |s| - i
  {
    if i < |s| {
      assert s[i..] == [s[i]] + s[i + 1..];
      match MatchAt(SpaceRun, s, i)
      case Some(h) =>
        var m := h.end;
        SpaceRunIsFilter(s, m);
        assert s[i..] == s[i..m] + s[m..];
        FilterAppend(s[i..m], s[m..], NotSpace);
        FilterDropsAll(s[i..m], NotSpace);
      case None =>
        SpaceRunIsFilter(s, i + 1);
    }
  }

  predicate IsMarkup(c: char) {
    c == '#' || c == '*' || c == '`'
  }

  predicate NotMarkup(c: char) {
    !IsMarkup(c)
  }

  /** Removing markup characters deletes exactly '#', '*' and '`'. */
  lemma {:induction false} MarkupCharIsFilter(s: string, i: nat)
    requires i <= |s|
    ensures SubFrom(MarkupChar, s, i) == Filter(s[i..], NotMarkup)
    decreases |s| - i
  {
    if i < |s| {
      assert s[i..] == [s[i]] + s[i + 1..];
      MarkupCharIsFilter(s, i + 1);
    }
  }

  /** A link tag whose label has no ']' and whose target has no ')', both
      on one line, matches as a whole and is replaced by its label. */
  lemma LinkAtTag(s: string, pre: string, lbl: string, url: string, post: string)
    requires s == pre + "[" + lbl + "](" + url + ")" + post
    requires '\n' !in lbl && ']' !in lbl && '\n' !in url && ')' !in url
    ensures LinkAt(s, |pre|) == Some(Hit(|pre| + |lbl| + |url| + 4, lbl))
  {
    var i := |pre|;
    var q := i + 1 + |lbl|;
    var p := q + 2 + |url|;
    assert s[i] == '[';
    forall n | i + 1 <= n < q ensures s[n] != '\n' && s[n] != ']' {
      assert s[n] == lbl[n - i - 1];
    }
    assert s[q] == ']' && s[q + 1] == '(';
    FindLabelEndAt(s, i + 1, q);
    forall n | q + 2 <= n < p ensures s[n] != '\n' && s[n] != ')' {
      assert s[n] == url[n - q - 2];
    }
    assert s[p] == ')';
    FindOnLineAt(s, q + 2, ')', p);
    assert s[i + 1..q] == lbl;
  }

  /** An image tag vanishes, and the text around it, which has no '!', is kept. */
  lemma ImageTagRemoved(pre: string, alt: string, url: string, post: string)
    requires '!' !in pre && '!' !in post
    requires '\n' !in alt && ']' !in alt && '\n' !in url && ')' !in url
    ensures Sub(LazyImage, pre + "![" + alt + "](" + url + ")" + post) == pre + post
  {
    var s := pre + "![" + alt + "](" + url + ")" + post;
    var e := |pre| + |alt| + |url| + 5;
    ImageAtTag(s, pre, alt, url, post);
    assert s[..|pre|] == pre && s[e..] == post;
    forall k | 0 <= k < |pre| ensures MatchAt(LazyImage, s, k).None? {
      assert s[k] == pre[k];
    }
    forall k | e <= k < |s| ensures MatchAt(LazyImage, s, k).None? {
      assert s[k] == post[k - e];
    }
    SubOneMatch(LazyImage, s, |pre|, Hit(e, ""));
  }

  lemma ImageAtTag(s: string, pre: string, alt: string, url: string, post: string)
    requires s == pre + "![" + alt + "](" + url + ")" + post
    requires '\n' !in alt && ']' !in alt && '\n' !in url && ')' !in url
    ensures MatchAt(LazyImage, s, |pre|) == Some(Hit(|pre| + |alt| + |url| + 5, ""))
  {
    BangBeforeLink(s, pre, alt, url, post);
    LinkAtTag(s, pre + "!", alt, url, post);
  }

  lemma BangBeforeLink(s: string, pre: string, alt: string, url: string, post: string)
    requires s == pre + "![" + alt + "](" + url + ")" + post
    ensures s == (pre + "!") + "[" + alt + "](" + url + ")" + post && s[|pre|] == '!'
  {
  }

  /** A link tag becomes its label, and the text around it, which has no
      '[', is kept. */
  lemma LinkTagKeepsLabel(pre: string, lbl: string, url: string, post: string)
    requires '[' !in pre && '[' !in post
    requires '\n' !in lbl && ']' !in lbl && '\n' !in url && ')' !in url
    ensures Sub(LazyLink, pre + "[" + lbl + "](" + url + ")" + post) == pre + lbl + post
  {
    var s := pre + "[" + lbl + "](" + url + ")" + post;
    var e := |pre| + |lbl| + |url| + 4;
    LinkAtTag(s, pre, lbl, url, post);
    assert s[..|pre|] == pre && s[e..] == post;
    forall k | 0 <= k < |pre| ensures MatchAt(LazyLink, s, k).None? {
      assert s[k] == pre[k];
    }
    forall k | e <= k < |s| ensures MatchAt(LazyLink, s, k).None? {
      assert s[k] == post[k - e];
    }
    SubOneMatch(LazyLink, s, |pre|, Hit(e, lbl));
  }

  /** Text without '!' has no image tag to drop. */
  lemma NoBangNoImage(s: string)
    requires '!' !in s
    ensures Sub(LazyImage, s) == s
  {
    SubWithoutMatch(LazyImage, s, 0);
  }

  /** Text without '[' has no link tag to collapse. */
  lemma NoBracketNoLink(s: string)
    requires '[' !in s
    ensures Sub(LazyLink, s) == s
  {
    SubWithoutMatch(LazyLink, s, 0);
  }

  /** FindLabelEnd stops at the first "](" when nothing on the way is a
      newline or a ']'. */
  lemma {:induction false} FindLabelEndAt(s: string, k: nat, q: nat)
    requires k <= q && q + 1 < |s| && s[q] == ']' && s[q + 1] == '('
    requires forall n :: k <= n < q ==> s[n] != '\n' && s[n] != ']'
    ensures FindLabelEnd(s, k) == Some(q)
    decreases q - k
  {
    if k < q {
      FindLabelEndAt(s, k + 1, q);
    }
  }

  /** FindOnLine stops at the first `c` when nothing on the way is a newline. */
  lemma {:induction false} FindOnLineAt(s: string, k: nat, c: char, p: nat)
    requires c != '\n' && k <= p < |s| && s[p] == c
    requires forall n :: k <= n < p ==> s[n] != '\n' && s[n] != c
    ensures FindOnLine(s, k, c) == Some(p)
    decreases p - k
  {
    if k < p {
      FindOnLineAt(s, k + 1, c, p);
    }
  }

  /** Text without markup characters is left as it is by their removal. */
  lemma NoMarkupNoChange(s: string)
    requires forall k :: 0 <= k < |s| ==> !IsMarkup(s[k])
    ensures Sub(MarkupChar, s) == s
  {
    SubWithoutMatch(MarkupChar, s, 0);
  }
}
