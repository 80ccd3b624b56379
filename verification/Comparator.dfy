/** The paragraph-alignment check of comparator.py: a Markdown draft is
    compared with the text extracted from the source PDF, and every
    paragraph worth judging gets one of three tiers. */
module Comparator {
  import opened Common
  import opened Substitution
  import opened Matching

  // ---------------------------------------------------------------------
  // Normalisers (comparator.py:37-46)
  // ---------------------------------------------------------------------

  /** `clean_markdown_for_comparison`: drop image tags, keep only the label
      of link tags, delete '#', '*' and '`', then delete all whitespace. */
  function CleanMarkdown(text: string): (r: string)
    ensures r == Filter(Filter(Sub(LazyLink, Sub(LazyImage, text)), NotMarkup), NotSpace)
  {
    var noImages := Sub(LazyImage, text);
    var noLinks := Sub(LazyLink, noImages);
    var noMarkup := Sub(MarkupChar, noLinks);
    MarkupAndSpaceFilter(noLinks);
    Sub(SpaceRun, noMarkup)
  }

  /** `clean_pdf_for_comparison`: delete all whitespace. */
  function CleanPdf(text: string): (r: string)
    ensures r == Filter(text, NotSpace)
  {
    SpaceRunIsFilter(text, 0);
    assert text[0..] == text;
    Sub(SpaceRun, text)
  }

  /** The PDF normaliser deletes exactly the whitespace characters: every
      other character survives, as often as it occurred, in its original order. */
  lemma CleanPdfDeletesExactlySpaces(text: string)
    ensures CleanPdf(text) == Filter(text, NotSpace)
    ensures forall c :: c in CleanPdf(text) ==> !IsSpace(c)
    ensures forall c :: !IsSpace(c) ==> multiset(CleanPdf(text))[c] == multiset(text)[c]
  {
    SpaceRunIsFilter(text, 0);
    assert text[0..] == text;
    forall c | c in CleanPdf(text) ensures !IsSpace(c) {
      FilterMembership(text, NotSpace, c);
    }
    forall c | !IsSpace(c) ensures multiset(CleanPdf(text))[c] == multiset(text)[c] {
      FilterMultiplicity(text, NotSpace, c);
    }
  }

  /** The Markdown normaliser leaves no whitespace and none of '#', '*', '`',
      and never lengthens the paragraph. */
  lemma CleanMarkdownShape(text: string)
    ensures forall c :: c in CleanMarkdown(text) ==> !IsSpace(c) && !IsMarkup(c)
    ensures |CleanMarkdown(text)| <= |text|
  {
    var noImages := Sub(LazyImage, text);
    var noLinks := Sub(LazyLink, noImages);
    var noMarkup := Sub(MarkupChar, noLinks);
    SubShrinks(LazyImage, text, 0);
    SubShrinks(LazyLink, noImages, 0);
    SubShrinks(MarkupChar, noLinks, 0);
    SubShrinks(SpaceRun, noMarkup, 0);
    MarkupCharIsFilter(noLinks, 0);
    SpaceRunIsFilter(noMarkup, 0);
    assert noLinks[0..] == noLinks && noMarkup[0..] == noMarkup;
    forall c | c in CleanMarkdown(text) ensures !IsSpace(c) && !IsMarkup(c) {
      FilterMembership(noMarkup, NotSpace, c);
      FilterMembership(noLinks, NotMarkup, c);
    }
  }

  /** The four stages of the Markdown normaliser, one after the other. */
  lemma CleanMarkdownStages(text: string, noImages: string, noLinks: string, noMarkup: string, clean: string)
    requires Sub(LazyImage, text) == noImages && Sub(LazyLink, noImages) == noLinks
    requires Sub(MarkupChar, noLinks) == noMarkup && Sub(SpaceRun, noMarkup) == clean
    ensures CleanMarkdown(text) == clean
  {
  }

  /** Once the tags are handled, the last two stages keep exactly the
      characters that are neither markup nor whitespace, in order. */
  lemma MarkupAndSpaceFilter(noLinks: string)
    ensures Sub(SpaceRun, Sub(MarkupChar, noLinks)) == Filter(Filter(noLinks, NotMarkup), NotSpace)
  {
    var noMarkup := Sub(MarkupChar, noLinks);
    MarkupCharIsFilter(noLinks, 0);
    SpaceRunIsFilter(noMarkup, 0);
    assert noLinks[0..] == noLinks && noMarkup[0..] == noMarkup;
  }

  /** A paragraph with neither '!' nor '[' only loses its markup characters
      and its whitespace. */
  lemma CleanMarkdownDropsMarkup(text: string)
    requires '!' !in text && '[' !in text
    ensures CleanMarkdown(text) == Filter(Filter(text, NotMarkup), NotSpace)
  {
    NoBangNoImage(text);
    NoBracketNoLink(text);
    MarkupAndSpaceFilter(text);
  }

  /** An image tag vanishes entirely, alt text and path included; the text
      around it only loses its markup characters and whitespace. */
  lemma CleanMarkdownDropsImage(pre: string, alt: string, url: string, post: string)
    requires '!' !in pre && '!' !in post && '[' !in pre && '[' !in post
    requires '\n' !in alt && ']' !in alt && '\n' !in url && ')' !in url
    ensures CleanMarkdown(pre + "![" + alt + "](" + url + ")" + post)
         == Filter(Filter(pre + post, NotMarkup), NotSpace)
  {
    ImageTagRemoved(pre, alt, url, post);
    NoBracketNoLink(pre + post);
    MarkupAndSpaceFilter(pre + post);
  }

  /** A link tag leaves only its label; then the label and the text around
      it lose their markup characters and whitespace. */
  lemma CleanMarkdownKeepsLinkLabel(pre: string, lbl: string, url: string, post: string)
    requires '!' !in pre && '!' !in lbl && '!' !in url && '!' !in post && '[' !in pre && '[' !in post
    requires '\n' !in lbl && ']' !in lbl && '\n' !in url && ')' !in url
    ensures CleanMarkdown(pre + "[" + lbl + "](" + url + ")" + post)
         == Filter(Filter(pre + lbl + post, NotMarkup), NotSpace)
  {
    var s := pre + "[" + lbl + "](" + url + ")" + post;
    NoBangNoImage(s);
    LinkTagKeepsLabel(pre, lbl, url, post);
    MarkupAndSpaceFilter(pre + lbl + post);
  }

  /** An image tag on its own cleans to nothing. */
  lemma CleanMarkdownImageExample()
    ensures CleanMarkdown("![alt](img.png)") == ""
  {
    assert "" + "![" + "alt" + "](" + "img.png" + ")" + "" == "![alt](img.png)";
    CleanMarkdownDropsImage("", "alt", "img.png", "");
  }

  /** A link cleans to its label without the space. */
  lemma CleanMarkdownLinkExample()
    ensures CleanMarkdown("[Link Text](http://x)") == "LinkText"
  {
    assert "[" + "Link" + " " + "Text" + "](" + "http://x" + ")" == "[Link Text](http://x)";
    assert "Link" + "Text" == "LinkText";
    LinkCleansToWords("Link", "Text", "http://x");
  }

  /** A heading with bold text cleans to its words run together. */
  lemma CleanMarkdownHeadingExample()
    ensures CleanMarkdown("# Title **bold**") == "Titlebold"
  {
    assert "# " + "Title" + " **" + "bold" + "**" == "# Title **bold**";
    assert "Title" + "bold" == "Titlebold";
    HeadingCleansToWords("Title", "bold");
  }

  /** A link whose label is two words cleans to the two words run together. */
  lemma LinkCleansToWords(w1: string, w2: string, url: string)
    requires forall k :: 0 <= k < |w1| ==> IsLetter(w1[k])
    requires forall k :: 0 <= k < |w2| ==> IsLetter(w2[k])
    requires '!' !in url && '\n' !in url && ')' !in url
    ensures CleanMarkdown("[" + w1 + " " + w2 + "](" + url + ")") == w1 + w2
  {
    var lbl := w1 + " " + w2;
    assert '!' !in lbl && '\n' !in lbl && ']' !in lbl by {
      assert forall k :: 0 <= k < |lbl| ==> lbl[k] == ' ' || IsLetter(lbl[k]);
    }
    assert "[" + w1 + " " + w2 + "](" + url + ")" == "" + "[" + lbl + "](" + url + ")" + "";
    assert CleanMarkdown("" + "[" + lbl + "](" + url + ")" + "") == Filter(Filter(lbl, NotMarkup), NotSpace) by {
      CleanMarkdownKeepsLinkLabel("", lbl, url, "");
      assert "" + lbl + "" == lbl;
    }
    WordsJoined(w1, " ", w2);
  }

  /** A heading whose second word is bold cleans to the two words run
      together. */
  lemma HeadingCleansToWords(w1: string, w2: string)
    requires forall k :: 0 <= k < |w1| ==> IsLetter(w1[k])
    requires forall k :: 0 <= k < |w2| ==> IsLetter(w2[k])
    ensures CleanMarkdown("# " + w1 + " **" + w2 + "**") == w1 + w2
  {
    var x := "# " + w1 + " **" + w2 + "**";
    assert forall k :: 0 <= k < |x| ==> x[k] in "# *" || IsLetter(x[k]);
    CleanMarkdownDropsMarkup(x);
    HeadingMarksVanish();
    WordsBetweenMarks("# ", w1, " **", w2, "**");
  }

  /** Words of letters separated by pieces that clean to nothing clean to
      the words run together. */
  lemma WordsBetweenMarks(a: string, w1: string, b: string, w2: string, c: string)
    requires forall k :: 0 <= k < |w1| ==> IsLetter(w1[k])
    requires forall k :: 0 <= k < |w2| ==> IsLetter(w2[k])
    requires Filter(Filter(a, NotMarkup), NotSpace) == []
    requires Filter(Filter(b, NotMarkup), NotSpace) == []
    requires Filter(Filter(c, NotMarkup), NotSpace) == []
    ensures Filter(Filter(a + w1 + b + w2 + c, NotMarkup), NotSpace) == w1 + w2
  {
    LettersKept(w1);
    LettersKept(w2);
    calc {
      Filter(Filter(a + w1 + b + w2 + c, NotMarkup), NotSpace);
      { FilterChain(a + w1 + b + w2, c); FilterChain(a + w1 + b, w2);
        FilterChain(a + w1, b); FilterChain(a, w1); }
      Filter(Filter(a, NotMarkup), NotSpace) + w1 + Filter(Filter(b, NotMarkup), NotSpace)
        + w2 + Filter(Filter(c, NotMarkup), NotSpace);
      { EmptyJoins(w1, w2); }
      w1 + w2;
    }
  }

  lemma EmptyJoins(x: string, y: string)
    ensures [] + x + [] + y + [] == x + y
  {
  }

  lemma HeadingMarksVanish()
    ensures Filter(Filter("# ", NotMarkup), NotSpace) == []
    ensures Filter(Filter(" **", NotMarkup), NotSpace) == []
    ensures Filter(Filter("**", NotMarkup), NotSpace) == []
  {
    GapVanishes("# ");
    GapVanishes(" **");
    GapVanishes("**");
  }

  /** Running both filters distributes over concatenation. */
  lemma FilterChain(a: string, b: string)
    ensures Filter(Filter(a + b, NotMarkup), NotSpace)
         == Filter(Filter(a, NotMarkup), NotSpace) + Filter(Filter(b, NotMarkup), NotSpace)
  {
    FilterAppend(a, b, NotMarkup);
    FilterAppend(Filter(a, NotMarkup), Filter(b, NotMarkup), NotSpace);
  }

  predicate IsLetter(c: char) {
    'A' <= c <= 'Z' || 'a' <= c <= 'z'
  }

  /** A word of letters passes both filters untouched. */
  lemma LettersKept(w: string)
    requires forall k :: 0 <= k < |w| ==> IsLetter(w[k])
    ensures Filter(w, NotMarkup) == w && Filter(w, NotSpace) == w
  {
    FilterKeepsAll(w, NotMarkup);
    FilterKeepsAll(w, NotSpace);
  }

  /** Markup and whitespace vanish once both filters have run. */
  lemma GapVanishes(gap: string)
    requires forall k :: 0 <= k < |gap| ==> IsSpace(gap[k]) || IsMarkup(gap[k])
    ensures Filter(Filter(gap, NotMarkup), NotSpace) == []
  {
    var g := Filter(gap, NotMarkup);
    forall k | 0 <= k < |g| ensures !NotSpace(g[k]) {
      FilterMembership(gap, NotMarkup, g[k]);
    }
    FilterDropsAll(g, NotSpace);
  }

  /** Two words of letters with markup and whitespace between them clean
      to the two words run together. */
  lemma WordsJoined(w1: string, gap: string, w2: string)
    requires forall k :: 0 <= k < |w1| ==> IsLetter(w1[k])
    requires forall k :: 0 <= k < |w2| ==> IsLetter(w2[k])
    requires forall k :: 0 <= k < |gap| ==> IsSpace(gap[k]) || IsMarkup(gap[k])
    ensures Filter(Filter(w1 + gap + w2, NotMarkup), NotSpace) == w1 + w2
  {
    LettersKept(w1);
    LettersKept(w2);
    GapVanishes(gap);
    FilterChain(w1 + gap, w2);
    FilterChain(w1, gap);
    assert w1 + [] == w1;
  }

  // ---------------------------------------------------------------------
  // Paragraphs: `re.split(r'\n\s*\n', md_content)` (comparator.py:159)
  // ---------------------------------------------------------------------

  /** A paragraph break: whitespace only, starting and ending with a newline. */
  predicate IsBreak(t: string) {
    |t| >= 2 && t[0] == '\n' && t[|t| - 1] == '\n' && AllSpace(t)
  }

  /** `t` contains a paragraph break somewhere. */
  predicate ContainsBreak(t: string) {
    exists a, b | 0 <= a < b <= |t| :: IsBreak(t[a..b])
  }

  /** The last newline in `s[lo..hi]`. */
  function LastNewline(s: string, lo: nat, hi: nat): (r: Option<nat>)
    requires lo <= hi <= |s|
    ensures r.Some? ==> lo <= r.value < hi && s[r.value] == '\n'
    ensures r.Some? ==> forall k :: r.value < k < hi ==> s[k] != '\n'
    ensures r.None? ==> forall k :: lo <= k < hi ==> s[k] != '\n'
    decreases hi - lo
  {
    if hi == lo then None
    else if s[hi - 1] == '\n' then Some(hi - 1)
    else LastNewline(s, lo, hi - 1)
  }

  /** Where the break starting at `s[i]` ends, if one starts there: the
      greedy `\s*` takes the whole whitespace run after the newline, then
      gives back characters until the last newline of that run. */
  function BreakAt(s: string, i: nat): (e: Option<nat>)
    requires i <= |s|
    ensures e.Some? ==> i + 2 <= e.value <= |s| && IsBreak(s[i..e.value])
  {
    if i < |s| && s[i] == '\n' then
      var m := SkipSpaces(s, i + 1);
      match LastNewline(s, i + 1, m)
      case None => None
      case Some(q) =>
        assert IsBreak(s[i..q + 1]) by {
          forall k | i <= k <= q ensures IsSpace(s[k]) {
          }
        }
        Some(q + 1)
    else None
  }

  /** Every break starting at `s[i]` is found, and the one found is the
      longest. */
  lemma BreakAtIsLongest(s: string, i: nat, b: nat)
    requires i < b <= |s| && IsBreak(s[i..b])
    ensures BreakAt(s, i).Some? && b <= BreakAt(s, i).value
  {
    var t := s[i..b];
    assert s[i] == t[0] == '\n';
    assert s[b - 1] == t[b - 1 - i] == '\n';
    forall k | i + 1 <= k < b ensures IsSpace(s[k]) {
      assert s[k] == t[k - i];
    }
  }

  /** The pieces of `s[start..]` once the scan for breaks has reached `i`. */
  function SplitFrom(s: string, start: nat, i: nat): (ps: seq<string>)
    requires start <= i <= |s|
    ensures |ps| >= 1
    decreases |s| - i
  {
    if i == |s| then [s[start..]]
    else
      match BreakAt(s, i)
      case Some(e) => [s[start..i]] + SplitFrom(s, e, e)
      case None => SplitFrom(s, start, i + 1)
  }

  /** The breaks the scan from `i` removes, in order. */
  function BreaksFrom(s: string, i: nat): seq<string>
    requires i <= |s|
    decreases |s| - i
  {
    if i == |s| then []
    else
      match BreakAt(s, i)
      case Some(e) => [s[i..e]] + BreaksFrom(s, e)
      case None => BreaksFrom(s, i + 1)
  }

  /** `re.split(r'\n\s*\n', draft)`: the paragraphs, in draft order. */
  function Paragraphs(draft: string): (ps: seq<string>)
    ensures |ps| >= 1
  {
    SplitFrom(draft, 0, 0)
  }

  /** The breaks between consecutive paragraphs. */
  function Breaks(draft: string): seq<string> {
    BreaksFrom(draft, 0)
  }

  /** Paragraphs and breaks put back together, alternately. */
  function Interleave(ps: seq<string>, bs: seq<string>): string
    requires |ps| == |bs| + 1
    decreases |bs|
  {
    if bs == [] then ps[0] else ps[0] + bs[0] + Interleave(ps[1..], bs[1..])
  }

  lemma {:induction false} SplitFromJoins(s: string, start: nat, i: nat)
    requires start <= i <= |s|
    ensures |SplitFrom(s, start, i)| == |BreaksFrom(s, i)| + 1
    ensures Interleave(SplitFrom(s, start, i), BreaksFrom(s, i)) == s[start..]
    decreases |s| - i
  {
    if i < |s| {
      var found := BreakAt(s, i);
      SplitStep(s, start, i, found);
      if found.Some? {
        var e := found.value;
        SplitFromJoins(s, e, e);
        InterleaveCons(s[start..i], s[i..e], SplitFrom(s, e, e), BreaksFrom(s, e));
        assert s[start..] == s[start..i] + s[i..e] + s[e..];
      } else {
        SplitFromJoins(s, start, i + 1);
      }
    }
  }

  /** One step of the scan: a break at `i` closes the current piece. */
  lemma SplitStep(s: string, start: nat, i: nat, found: Option<nat>)
    requires start <= i < |s| && found == BreakAt(s, i)
    ensures found.Some? ==>
      i < found.value <= |s|
      && SplitFrom(s, start, i) == [s[start..i]] + SplitFrom(s, found.value, found.value)
      && BreaksFrom(s, i) == [s[i..found.value]] + BreaksFrom(s, found.value)
    ensures found.None? ==>
      SplitFrom(s, start, i) == SplitFrom(s, start, i + 1) && BreaksFrom(s, i) == BreaksFrom(s, i + 1)
  {
  }

  lemma InterleaveCons(p: string, b: string, ps: seq<string>, bs: seq<string>)
    requires |ps| == |bs| + 1
    ensures Interleave([p] + ps, [b] + bs) == p + b + Interleave(ps, bs)
  {
    assert ([p] + ps)[1..] == ps && ([b] + bs)[1..] == bs;
  }

  /** Splitting loses nothing: the paragraphs with the breaks between them
      give back the draft. */
  lemma ParagraphsJoin(draft: string)
    ensures |Paragraphs(draft)| == |Breaks(draft)| + 1
    ensures Interleave(Paragraphs(draft), Breaks(draft)) == draft
  {
    SplitFromJoins(draft, 0, 0);
  }

  lemma {:induction false} BreaksFromAreBreaks(s: string, i: nat)
    requires i <= |s|
    ensures forall b | b in BreaksFrom(s, i) :: IsBreak(b)
    decreases |s| - i
  {
    if i < |s| {
      match BreakAt(s, i)
      case Some(e) => BreaksFromAreBreaks(s, e);
      case None => BreaksFromAreBreaks(s, i + 1);
    }
  }

  /** What the split removes between paragraphs is always a break. */
  lemma BreaksAreBreaks(draft: string)
    ensures forall b | b in Breaks(draft) :: IsBreak(b)
  {
    BreaksFromAreBreaks(draft, 0);
  }

  lemma PieceHasNoBreak(s: string, start: nat, end: nat)
    requires start <= end <= |s|
    requires forall k :: start <= k < end ==> BreakAt(s, k).None?
    ensures !ContainsBreak(s[start..end])
  {
    var t := s[start..end];
    forall a, b | 0 <= a < b <= |t| ensures !IsBreak(t[a..b]) {
      SliceOfSlice(s, start, end - start, a, b - a);
      if IsBreak(t[a..b]) {
        BreakAtIsLongest(s, start + a, start + b);
      }
    }
  }

  lemma {:induction false} SplitFromHasNoBreak(s: string, start: nat, i: nat)
    requires start <= i <= |s|
    requires forall k :: start <= k < i ==> BreakAt(s, k).None?
    ensures forall p | p in SplitFrom(s, start, i) :: !ContainsBreak(p)
    decreases |s| - i
  {
    if i == |s| {
      PieceHasNoBreak(s, start, |s|);
      assert s[start..|s|] == s[start..];
    } else {
      match BreakAt(s, i)
      case Some(e) =>
        PieceHasNoBreak(s, start, i);
        SplitFromHasNoBreak(s, e, e);
      case None =>
        SplitFromHasNoBreak(s, start, i + 1);
    }
  }

  /** No paragraph still contains a break: the split is complete. */
  lemma ParagraphsHaveNoBreak(draft: string)
    ensures forall p | p in Paragraphs(draft) :: !ContainsBreak(p)
  {
    SplitFromHasNoBreak(draft, 0, 0);
  }

  // ---------------------------------------------------------------------
  // Classification (comparator.py:177-203)
  // ---------------------------------------------------------------------

  /** The three tiers: ✅ exact, ⚠️ fuzzy, ❌ missing. */
  datatype Tier = Verified | Probable | Unverified

  /** One card of the review list: the tier and the paragraph as drafted. */
  datatype Verdict = Verdict(tier: Tier, paragraph: string)

  datatype AlignError = EmptySource

  /** Below this many characters after `strip()` the PDF text is unusable. */
  const MinSourceLength: nat := 10

  /** Below this many characters after cleaning a paragraph is not judged. */
  const MinParagraphLength: nat := 5

  /** Tiers ordered by confidence. */
  function Rank(t: Tier): nat {
    match t
    case Unverified => 0
    case Probable => 1
    case Verified => 2
  }

  /** `ratio > 0.8` where `ratio = size / len` for a non-empty paragraph and
      0 otherwise, decided on integers. */
  function FuzzyTier(size: nat, len: nat): Tier {
    if len > 0 && 5 * size > 4 * len then Probable else Unverified
  }

  /** The integer test is the real-number test `size / len > 0.8`. */
  lemma FuzzyTierIsRatioTest(size: nat, len: nat)
    requires len > 0
    ensures FuzzyTier(size, len) == Probable <==> (size as real) / (len as real) > 0.8
  {
    var sz, ln := size as real, len as real;
    QuotientAbove(sz, ln, 0.8);
    assert 5.0 * sz == (5 * size) as real && 4.0 * ln == (4 * len) as real;
    assert sz > 0.8 * ln <==> 5.0 * sz > 4.0 * ln;
  }

  lemma QuotientAbove(x: real, y: real, c: real)
    requires y > 0.0
    ensures x / y > c <==> x > c * y
  {
    var q := x / y;
    assert x == q * y;
    assert x - c * y == (q - c) * y;
    if q > c {
      assert (q - c) * y > 0.0;
    } else {
      assert (c - q) * y >= 0.0;
    }
  }

  /** A ratio of exactly 0.8 is not enough. */
  lemma FuzzyBoundaryIsUnverified(size: nat, len: nat)
    requires 5 * size == 4 * len
    ensures FuzzyTier(size, len) == Unverified
  {
  }

  /** For a fixed paragraph length a longer match never lowers the tier. */
  lemma FuzzyTierMonotone(size1: nat, size2: nat, len: nat)
    requires size1 <= size2
    ensures Rank(FuzzyTier(size1, len)) <= Rank(FuzzyTier(size2, len))
  {
  }

  /** The tier of a cleaned paragraph against the cleaned PDF text. */
  function Classify(clean: string, pdfClean: string): (t: Tier)
    ensures t == Verified <==> IsSubstring(clean, pdfClean)
    ensures t == Probable <==> !IsSubstring(clean, pdfClean) && 5 * LongestMatch(clean, pdfClean).size > 4 * |clean|
    ensures t == Unverified <==> !IsSubstring(clean, pdfClean) && 5 * LongestMatch(clean, pdfClean).size <= 4 * |clean|
  {
    if IsSubstring(clean, pdfClean) then Verified
    else FuzzyTier(LongestMatch(clean, pdfClean).size, |clean|)
  }

  /** Verified means the longest common block is the whole cleaned paragraph,
      which is exactly when the paragraph occurs in the PDF text. */
  lemma VerifiedIffWholeParagraphMatches(clean: string, pdfClean: string)
    ensures Classify(clean, pdfClean) == Verified <==> IsSubstring(clean, pdfClean)
    ensures Classify(clean, pdfClean) == Verified <==> LongestMatch(clean, pdfClean).size == |clean|
  {
    FullMatchIffContained(clean, pdfClean);
  }

  /** In the fuzzy branch the match is strictly shorter than the paragraph,
      so the ratio is below 1. */
  lemma FuzzyMatchIsPartial(clean: string, pdfClean: string)
    requires !IsSubstring(clean, pdfClean)
    ensures LongestMatch(clean, pdfClean).size < |clean|
  {
    FullMatchIffContained(clean, pdfClean);
  }

  /** More source text never lowers a paragraph's tier. */
  lemma LongerSourceNeverLowersTier(clean: string, pdfClean: string, larger: string)
    requires IsSubstring(pdfClean, larger)
    ensures Rank(Classify(clean, pdfClean)) <= Rank(Classify(clean, larger))
  {
    if IsSubstring(clean, pdfClean) {
      SubstringTransitive(clean, pdfClean, larger);
    } else if !IsSubstring(clean, larger) {
      LongestMatchGrowsWithText(clean, pdfClean, larger);
    }
  }

  /** The cleaned paragraph "Thequickbrownfoxjumps." against the cleaned
      source "thequickbrownfoxjumps": the capital T and the full stop prevent
      an exact match, and the common block "hequickbrownfoxjumps" covers 20
      of 22 characters. */
  lemma FoxParagraphIsProbable(clean: string, pdfClean: string)
    requires clean == "Thequickbrownfoxjumps." && pdfClean == "thequickbrownfoxjumps"
    ensures Classify(clean, pdfClean) == Probable
  {
    assert !IsSubstring(clean, pdfClean);
    FoxBlock(clean, pdfClean);
  }

  lemma FoxBlock(clean: string, pdfClean: string)
    requires clean == "Thequickbrownfoxjumps." && pdfClean == "thequickbrownfoxjumps"
    ensures IsCommonBlock(clean, pdfClean, 1, 1, 20)
  {
    assert forall k :: 1 <= k < 21 ==> clean[k] == pdfClean[k];
    assert clean[1..21] == pdfClean[1..21];
  }

  // ---------------------------------------------------------------------
  // Alignment (comparator.py:147-221)
  // ---------------------------------------------------------------------

  /** A paragraph gets a card unless it is blank or too short once cleaned. */
  predicate Reviewable(p: string) {
    Strip(p) != "" && |CleanMarkdown(p)| >= MinParagraphLength
  }

  /** The card a reviewable paragraph gets: the tier of its cleaned form,
      and the paragraph as drafted. */
  function Judge(p: string, pdfClean: string): Verdict {
    Verdict(Classify(CleanMarkdown(p), pdfClean), p)
  }

  /** The card for one paragraph, if it gets one. */
  function VerdictFor(p: string, pdfClean: string): seq<Verdict> {
    if Reviewable(p) then [Judge(p, pdfClean)] else []
  }

  /** The cards for a run of paragraphs, in order. */
  function VerdictsOf(ps: seq<string>, pdfClean: string): seq<Verdict> {
    KeepMap(ps, Reviewable, pdfClean, Judge)
  }

  /** The PDF text is worth comparing against. */
  predicate SourceUsable(pdfText: string) {
    pdfText != "" && |Strip(pdfText)| >= MinSourceLength
  }

  /** The whole alignment: fail before any paragraph if the PDF text is
      unusable, else one card per reviewable paragraph. */
  function Align(pdfText: string, draft: string): (r: Result<seq<Verdict>, AlignError>)
    ensures r.Failure? <==> !SourceUsable(pdfText)
    ensures r.Success? ==> |r.value| == |Filter(Paragraphs(draft), Reviewable)| <= |Paragraphs(draft)|
  {
    if !SourceUsable(pdfText) then Failure(EmptySource)
    else
      VerdictsFollowParagraphs(Paragraphs(draft), CleanPdf(pdfText));
      Success(VerdictsOf(Paragraphs(draft), CleanPdf(pdfText)))
  }

  /** Exactly the reviewable paragraphs get a card, one each, in draft order,
      carrying the paragraph as drafted and the tier of its cleaned form. */
  lemma VerdictsFollowParagraphs(ps: seq<string>, pdfClean: string)
    ensures |VerdictsOf(ps, pdfClean)| == |Filter(ps, Reviewable)|
    ensures forall k :: 0 <= k < |Filter(ps, Reviewable)| ==>
      VerdictsOf(ps, pdfClean)[k] == Judge(Filter(ps, Reviewable)[k], pdfClean)
  {
    KeepMapIsMapOfFilter(ps, Reviewable, pdfClean, Judge);
  }

  /** A paragraph shorter than five characters never gets a card, whatever
      the PDF says. */
  lemma ShortParagraphGetsNoVerdict(p: string, pdfClean: string)
    requires |p| < MinParagraphLength
    ensures VerdictFor(p, pdfClean) == []
  {
    CleanMarkdownShape(p);
  }

  /** A blank paragraph never gets a card. */
  lemma BlankParagraphGetsNoVerdict(p: string, pdfClean: string)
    requires AllSpace(p)
    ensures VerdictFor(p, pdfClean) == []
  {
    StripEmptyIffAllSpace(p);
  }

  /** `render_alignment_ui` without the rendering: the loop over the
      paragraphs that assigns each reviewable one its tier. */
  method RenderAlignment(pdfText: string, draft: string) returns (r: Result<seq<Verdict>, AlignError>)
    ensures r == Align(pdfText, draft)
    ensures r.Failure? <==> |Strip(pdfText)| < MinSourceLength
  {
    if pdfText == "" || |Strip(pdfText)| < MinSourceLength {
      return Failure(EmptySource);
    }
    var pdfClean := CleanPdf(pdfText);
    var paragraphs := Paragraphs(draft);
    var verdicts: seq<Verdict> := [];
    for k := 0 to |paragraphs|
      invariant verdicts == VerdictsOf(paragraphs[..k], pdfClean)
    {
      var card := ReviewParagraph(paragraphs[k], pdfClean);
      KeepMapStep(paragraphs, k, Reviewable, pdfClean, Judge);
      verdicts := verdicts + card;
    }
    assert paragraphs[..|paragraphs|] == paragraphs;
    return Success(verdicts);
  }

  /** One pass of the loop body: a paragraph that is blank, or too short
      once cleaned, is skipped; any other gets its tier. */
  method ReviewParagraph(p: string, pdfClean: string) returns (card: seq<Verdict>)
    ensures card == VerdictFor(p, pdfClean)
  {
    if Strip(p) == "" {
      return [];
    }
    var clean := CleanMarkdown(p);
    if |clean| < MinParagraphLength {
      return [];
    }
    var tier: Tier;
    if IsSubstring(clean, pdfClean) {
      tier := Verified;
    } else {
      var m := LongestMatch(clean, pdfClean);
      if |clean| > 0 && 5 * m.size > 4 * |clean| {
        tier := Probable;
      } else {
        tier := Unverified;
      }
    }
    return [Verdict(tier, p)];
  }
}
