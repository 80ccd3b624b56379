# A verified model of the Markdown review and conversion core

The program helps someone prepare a book. A PDF is parsed into a Markdown
draft. The draft is checked paragraph by paragraph against the text of the
PDF, and then converted to EPUB or DOCX with pandoc. This project models the
parts of that program that decide something, and proves what they promise.

- **Comparator** (`comparator.py`) is the paragraph-alignment check.
  - Two normalisers turn a Markdown paragraph and the PDF text into
    comparable strings.
  - The draft is split into paragraphs on `\n\s*\n`.
  - Each paragraph that is neither blank nor shorter than five characters
    once cleaned gets one of three tiers:
    - Verified: the cleaned paragraph occurs in the cleaned PDF text.
    - Probable: the longest common block covers more than 0.8 of the
      paragraph.
    - Unverified: anything else.
  - When the stripped PDF text is shorter than ten characters, the whole
    check fails before any paragraph is judged.
  - The loop of `render_alignment_ui` is the method
    `Comparator.RenderAlignment`, proved equal to the function
    `Comparator.Align`.
- **Substitution** writes each regular expression the program uses as an
  explicit matcher (`MatchAt`). `re.sub` is the left-to-right scan
  `SubFrom`, which emits the replacement at a match and copies one
  character otherwise.
- **Matching** models `in` on strings and difflib's `find_longest_match`.
  The latter is taken as the true longest common substring. It is computed
  by a row-by-row search, and proved common and longest.
- **BatchFiles** (`main-two.py`) is the upload list. `BatchFileManager` is
  a class whose `files` field each method changes in place. Every method is
  proved against a function on the old list, and those functions carry the
  list comprehension's promises.
- **MarkdownTools** (`main-two.py`) holds three pure transforms: the
  math-delimiter rewriter, the caption cleaner, and the CJK/English word
  counter.
- **PandocCommand** (`main.py`) holds:
  - the choice of the Markdown file a parser produced;
  - the caption cleaner;
  - the converter command line `run_pandoc` builds, together with the files
    it writes beside the input. This is modelled both as a function
    (`PandocRun`) and as the step-by-step methods (`RunPandoc`,
    `PrepareInput`, `ExtendForFormat`) proved equal to it.
- **ConverterTool** (`converter_tool.py`) holds:
  - the output name;
  - the per-format command line, built by `BuildConversionArgs`;
  - how the process outcome becomes `(bytes, None)` or `(None, message)`;
  - the two screen modes.
- **Paths** and **Common** hold the parts of `pathlib` used, `str.strip()`,
  Python's whitespace class, and an order-preserving filter (the model of a
  list comprehension).

Behaviour of the code worth knowing:

- The PDF text counts as too short when `len(pdf_full_text.strip()) < 10` (comparator.py:154): leading and trailing whitespace does not count towards the ten characters.
- The image and link patterns of `clean_markdown` cannot cross a newline, because `.` does not match one (comparator.py:39-40).
- A paragraph that is not found verbatim is graded by its longest common block with the PDF text (comparator.py:192-196). The paragraph "The quick brown fox jumps." cleans to "Thequickbrownfoxjumps.", and the PDF text "thequickbrownfoxjumps" is already clean. The longest common block of the two cleaned texts is "hequickbrownfoxjumps": 20 of 22 characters, which gives Probable. `Comparator.FoxParagraphIsProbable` proves this tier starting from the two cleaned texts; the cleaning itself is the general `Comparator.CleanMarkdownDropsMarkup`.

One behaviour of `run_pandoc` is worth knowing. Without `source_filename`, a Markdown book converted to EPUB is titled after its cleaned copy, so the title starts with `temp_` (`PandocCommand.UntitledMarkdownBook`). Every caller in the program passes `source_filename`, so this is recorded as behaviour, not as a defect.

## Model

| member | source | states |
|---|---|---|
| Common.FilterMembership | main-two.py:61-62 | an element is in a comprehension's result exactly when it is in the input and passes the test |
| Common.FilterMultiplicity | main-two.py:74-77 | each kept element occurs as often as in the input, and each dropped element not at all |
| Common.FilterAppend | main-two.py:79-83 | filtering distributes over concatenation, so kept elements keep their relative order |
| Common.FilterHead | main.py:111-113 | the first element kept is the first element of the input that passes the test |
| Common.KeepMapIsMapOfFilter | comparator.py:177-181 | a loop that emits at most one result per element emits exactly one for each element passing the test, in input order |
| Common.KeepMapStep | comparator.py:177-217 | one more element adds only its own result, at the end |
| Common.SkipSpaces | comparator.py:159 | the greedy `\s*` from a position ends at the first non-whitespace character, and everything it skips is whitespace |
| Common.SkipSpacesBack | comparator.py:154 | the whitespace run ending at a position starts after the last non-whitespace character before it |
| Common.TrimStartDropsLeadingSpace | comparator.py:154 | `lstrip` keeps a suffix that does not start with whitespace, and what it drops is all whitespace |
| Common.TrimEndDropsTrailingSpace | comparator.py:154 | `rstrip` keeps a prefix that does not end with whitespace, and what it drops is all whitespace |
| Common.StripEmptyIffAllSpace | comparator.py:178 | `not p.strip()` holds exactly when the paragraph is empty or all whitespace |
| Common.StripIsSlice | comparator.py:154 | the stripped text is a contiguous slice of the input, never longer |
| Paths.LastIndexOf | main.py:147 | the position found holds the character and none after it does; no position means no occurrence |
| Paths.Name | main.py:147 | the final path component holds no '/' and is a suffix of the path |
| Paths.SuffixStart | main.py:138 | a suffix starts at the last dot of the name, which is neither its first nor its last character |
| Paths.StemSuffixSplit | converter_tool.py:24 | stem and suffix concatenate to the name, and a non-empty suffix is a dot followed by at least one non-dot character |
| Paths.StemOfDotted | converter_tool.py:25 | appending "." and a dot-free extension to a non-empty stem is undone by `stem` and `suffix` |
| Paths.SuffixKeptUnderPrefix | main.py:142 | prefixing a name that has a suffix keeps that suffix |
| Paths.Parent | main.py:134 | the parent is ".", the root, or the part of the path before its last '/' |
| Paths.NameOfJoin | converter_tool.py:18 | a file name joined onto a directory is the joined path's final component |
| Substitution.FindOnLine | comparator.py:39-40 | the lazy `.*?` before a closing character finds its first occurrence on the same line, or reports that a newline comes first |
| Substitution.FindLabelEnd | comparator.py:40 | the lazy label ends at the first "](" on the line; when none is found, every later "](" has a newline before it |
| Substitution.FindChar | comparator.py:39-40 | the character found is the first occurrence from the position; none found means no occurrence |
| Substitution.LinkAt | comparator.py:40 | a link match lies within the text and its label is shorter than the whole tag |
| Substitution.OpenerAt | main-two.py:315 | an opening delimiter match lies within the text and is replaced by the rule's text |
| Substitution.CloserAt | main-two.py:316 | a closing delimiter match lies within the text and is replaced by the rule's text |
| Substitution.CaptionAt | main.py:119 | an image-caption match lies within the text |
| Substitution.BlockAt | main-two.py:406-407 | a block match lies within the text, runs past the opening delimiter and is replaced by nothing |
| Substitution.BlockAtDelimits | main-two.py:406-407 | a block starts with the delimiter and ends with the next one, with no delimiter in between; there is no block exactly when the delimiter does not start there or never occurs again |
| Substitution.MatchAt | comparator.py:39-42 | every match is non-empty and lies within the text; the deleting rules never replace a match by something longer |
| Substitution.SubStep | comparator.py:39 | where the pattern matches, `re.sub` emits the replacement and resumes after the match |
| Substitution.SubSkip | comparator.py:39 | where the pattern does not match, `re.sub` copies the character |
| Substitution.SubCopies | comparator.py:39 | a stretch without a match is copied unchanged |
| Substitution.SubOneMatch | main.py:120 | a text with exactly one match is the part before it, the replacement, and the part after it |
| Substitution.SubShrinks | comparator.py:39-42 | the normalising substitutions never lengthen the text |
| Substitution.SubWithoutMatch | comparator.py:39 | a text with no match comes back unchanged |
| Substitution.SpaceRunIsFilter | comparator.py:42 | deleting `\s+` runs deletes exactly the whitespace characters and keeps the rest in order |
| Substitution.MarkupCharIsFilter | comparator.py:41 | deleting `[#*`]` deletes exactly those three characters and keeps the rest in order |
| Substitution.NoBangNoImage | comparator.py:39 | text without '!' has no image tag to drop |
| Substitution.NoBracketNoLink | comparator.py:40 | text without '[' has no link tag to collapse |
| Substitution.NoMarkupNoChange | comparator.py:41 | text without markup characters is left as it is |
| Substitution.LinkAtTag | comparator.py:40 | `[label](url)` on one line, with no ']' in the label and no ')' in the url, is one link match whose replacement is the label |
| Substitution.ImageAtTag | comparator.py:39 | `![alt](url)` on one line is one image match, replaced by nothing |
| Substitution.ImageTagRemoved | comparator.py:39 | an image tag between texts without '!' is deleted and the texts around it are kept |
| Substitution.LinkTagKeepsLabel | comparator.py:40 | a link tag between texts without '[' is replaced by its label and the texts around it are kept |
| Substitution.SubSuffix | comparator.py:39 | for a rule that looks only forward, the scan resumed at a position processes the rest of the text as `re.sub` would process it alone |
| Substitution.SubAfterPrefix | comparator.py:39 | a prefix in which the rule finds no match is copied, and the rest is processed as if it were alone |
| Substitution.FindDelimiterIs | main-two.py:406-407 | the lazy block body ends at the first closing delimiter: a delimiter with none before it is the one found |
| Matching.SubstringTransitive | comparator.py:187 | containment is transitive |
| Matching.RunAtIsCommon | comparator.py:193 | the agreeing run from two positions is a common block |
| Matching.RunAtIsLongest | comparator.py:193 | no common block from those positions is longer than the run |
| Matching.BestInRow | comparator.py:193 | the chosen block from one paragraph position is at least as long as every run from that position |
| Matching.BestFrom | comparator.py:193 | the chosen block is at least as long as every run from every later pair of positions |
| Matching.LongestMatch | comparator.py:192-193 | the reported block is common to both texts and no common block is longer |
| Matching.FullMatchIffContained | comparator.py:187-194 | the longest block covers the whole paragraph exactly when the paragraph occurs in the text |
| Matching.LongestMatchGrowsWithText | comparator.py:192-193 | for the true longest common block: a text containing the source text never has a shorter longest block |
| Comparator.CleanMarkdown | comparator.py:37-43 | after the image and link substitutions, the last two keep exactly the characters that are neither markup nor whitespace, in order (the tag cases are `CleanMarkdownDropsImage` and `CleanMarkdownKeepsLinkLabel`, the shape is `CleanMarkdownShape`) |
| Comparator.CleanPdf | comparator.py:45-46 | the result is the input with its whitespace filtered out (multiplicities in `CleanPdfDeletesExactlySpaces`) |
| Comparator.CleanPdfDeletesExactlySpaces | comparator.py:45-46 | the PDF normaliser deletes exactly the whitespace, keeping every other character, as often as it occurred, in order |
| Comparator.CleanMarkdownShape | comparator.py:37-43 | the cleaned paragraph has no whitespace and no '#', '*' or '`', and is never longer than the paragraph |
| Comparator.CleanMarkdownDropsMarkup | comparator.py:37-43 | a paragraph with no '!' and no '[' loses exactly its '#', '*', '`' and whitespace characters, the rest kept in order |
| Comparator.MarkupAndSpaceFilter | comparator.py:41-42 | the last two substitutions are the filters that drop the markup characters and then the whitespace |
| Comparator.CleanMarkdownDropsImage | comparator.py:37-43 | an image tag vanishes entirely, alt text and path included; the text around it loses only its markup and whitespace |
| Comparator.CleanMarkdownKeepsLinkLabel | comparator.py:37-43 | a link tag leaves only its label; the label and the text around it lose only their markup and whitespace |
| Comparator.CleanMarkdownImageExample | comparator.py:39 | "![alt](img.png)" cleans to "" |
| Comparator.CleanMarkdownLinkExample | comparator.py:40-42 | "[Link Text](http://x)" cleans to "LinkText" |
| Comparator.CleanMarkdownHeadingExample | comparator.py:41-42 | "# Title **bold**" cleans to "Titlebold" |
| Comparator.LinkCleansToWords | comparator.py:37-43 | a link whose label is two words of letters cleans to the two words run together |
| Comparator.HeadingCleansToWords | comparator.py:37-43 | a heading `# w1 **w2**` cleans to the two words run together |
| Comparator.CleanMarkdownStages | comparator.py:37-43 | the normaliser applies its four substitutions in source order |
| Comparator.BreakAt | comparator.py:159 | what the scan takes as a paragraph break is whitespace that starts and ends with a newline |
| Comparator.BreakAtIsLongest | comparator.py:159 | every break that starts at a position is found, and the greedy one found is the longest |
| Comparator.SplitFromJoins | comparator.py:159 | the pieces of the scan, with the breaks between them, give back the scanned text |
| Comparator.Paragraphs | comparator.py:159 | the split always yields at least one paragraph (what it loses and keeps: `ParagraphsJoin`, `BreaksAreBreaks`, `ParagraphsHaveNoBreak`) |
| Comparator.ParagraphsJoin | comparator.py:159 | the split loses nothing: paragraphs interleaved with the removed breaks give back the draft |
| Comparator.BreaksAreBreaks | comparator.py:159 | everything the split removes is a paragraph break |
| Comparator.ParagraphsHaveNoBreak | comparator.py:159 | no paragraph still contains a break |
| Comparator.FuzzyTierIsRatioTest | comparator.py:194-196 | the integer test `5*size > 4*len` is the real-number test `size/len > 0.8` |
| Comparator.FuzzyBoundaryIsUnverified | comparator.py:196 | a ratio of exactly 0.8 is Unverified |
| Comparator.FuzzyTierMonotone | comparator.py:196-203 | for a fixed paragraph length, a longer match never lowers the tier |
| Comparator.Classify | comparator.py:187-203 | Verified exactly when the cleaned paragraph occurs in the cleaned PDF text; Probable exactly when it does not occur and the longest common block is more than 0.8 of the paragraph; Unverified exactly when it does not occur and the block is at most 0.8 of it (`VerifiedIffWholeParagraphMatches`, `FuzzyTierMonotone`) |
| Comparator.VerifiedIffWholeParagraphMatches | comparator.py:187-190 | Verified exactly when the paragraph occurs in the PDF text, which is exactly when the longest block is the whole paragraph |
| Comparator.FuzzyMatchIsPartial | comparator.py:192-194 | in the fuzzy branch the match is strictly shorter than the paragraph, so the ratio is below 1 |
| Comparator.LongerSourceNeverLowersTier | comparator.py:187-203 | for the true longest common block: more source text never lowers a paragraph's tier |
| Comparator.FoxParagraphIsProbable | comparator.py:187-199 | the cleaned fox paragraph "Thequickbrownfoxjumps." is not contained in the cleaned text "thequickbrownfoxjumps", and is Probable |
| Comparator.VerdictsFollowParagraphs | comparator.py:177-217 | exactly the reviewable paragraphs get a card, one each, in draft order, carrying the paragraph as drafted and the tier of its cleaned form |
| Comparator.ShortParagraphGetsNoVerdict | comparator.py:180-181 | a paragraph shorter than five characters never gets a card |
| Comparator.BlankParagraphGetsNoVerdict | comparator.py:178 | a blank paragraph never gets a card |
| Comparator.Align | comparator.py:153-217 | the check fails exactly when the PDF text is empty or shorter than ten characters once stripped; otherwise there is one card per reviewable paragraph, never more cards than paragraphs (contents in `VerdictsFollowParagraphs`) |
| Comparator.RenderAlignment | comparator.py:153-217 | the loop's result is the alignment, and it fails exactly when the stripped PDF text is shorter than ten characters |
| Comparator.ReviewParagraph | comparator.py:178-203 | one pass of the loop yields the paragraph's card, or none when it is skipped |
| BatchFiles.StatusLabelsDistinct | main-two.py:33-37 | the stored status labels tell the statuses apart |
| BatchFiles.NewRecords | main-two.py:47-59 | one record per upload (their fields: `NewRecordsArePending`) |
| BatchFiles.NewRecordsArePending | main-two.py:47-59 | one record per upload, in upload order, pending, with no error message and no result path, named, sized and timed after its upload |
| BatchFiles.FilesWithStatus | main-two.py:61-62 | exactly the records with the status, each as often as listed |
| BatchFiles.WithoutId | main-two.py:74-77 | no record with the id is left, and every other record stays as often as before |
| BatchFiles.WithoutCompleted | main-two.py:79-83 | exactly the completed records go, and the rest stay as often as before |
| BatchFiles.FilteringKeepsOrder | main-two.py:61-83 | the status query, removing and clearing each distribute over concatenation, so the surviving records keep their relative order |
| BatchFiles.FirstWithId | main-two.py:65-66 | the position found is the first record with the id; none means no record has it |
| BatchFiles.UpdatedFirst | main-two.py:64-72 | the list keeps its length, and no record changes its id or name (which record changes, and how: `UpdateTouchesOnlyFirstMatch`) |
| BatchFiles.UpdateTouchesOnlyFirstMatch | main-two.py:64-72 | only the first record with the id changes: it takes the status, and the message and path only when they are truthy; an unknown id changes nothing |
| BatchFiles.BatchFileManager.constructor | main-two.py:43-45 | the list the session holds is kept, or an empty one is started |
| BatchFiles.BatchFileManager.AddFiles | main-two.py:47-59 | the new list is the old one followed by the new records |
| BatchFiles.BatchFileManager.GetFilesByStatus | main-two.py:61-62 | the loop returns the records with that status |
| BatchFiles.BatchFileManager.UpdateFileStatus | main-two.py:64-72 | the loop with `break` leaves the list updated at the first matching record only |
| BatchFiles.BatchFileManager.RemoveFile | main-two.py:74-77 | the list loses the records with the id |
| BatchFiles.BatchFileManager.ClearCompleted | main-two.py:79-83 | the list loses the completed records |
| MarkdownTools.NormalizeMathFormulas | main-two.py:313-319 | empty input gives "" |
| MarkdownTools.OpenerStep | main-two.py:315-318 | an opening delimiter and the whitespace after it become the rule's text; the text before it is kept and the text after it goes through the same pass on its own |
| MarkdownTools.CloserStep | main-two.py:315-318 | a closing delimiter and the whitespace before it become the rule's text; the text before it is kept and the text after it goes through the same pass on its own |
| MarkdownTools.MathPrefixKept | main-two.py:315-318 | a prefix that does not escape the pass's bracket, and does not end in a backslash before it, is copied by the pass, and the rest is processed as if it were alone |
| MarkdownTools.InlineMathBecomesDollars | main-two.py:315-316 | `\(` formula `\)` with inner whitespace becomes `$formula$`, the text before it is kept, and whatever follows is normalised in turn; the formula and the text before it may hold any LaTeX, backslashes included, except the four escaped delimiters |
| MarkdownTools.DisplayMathBecomesBlock | main-two.py:317-318 | `\[` formula `\]` becomes the formula between two "$$" lines, the text before it is kept, and whatever follows is normalised in turn; the formula and the text before it may hold any LaTeX, backslashes included, except the four escaped delimiters |
| MarkdownTools.MathWithoutDelimiterUnchanged | main-two.py:315-318 | text holding none of `\(`, `\)`, `\[`, `\]` is unchanged, whatever other backslashes it holds |
| MarkdownTools.CleanImageCaptions | main-two.py:322-324 | empty input gives "" |
| MarkdownTools.CaptionGuardRedundant | main-two.py:323-324 | the empty-input guard does not change the result |
| MarkdownTools.CaptionDropped | main-two.py:324 | `![alt](path)` after a text without '!' becomes `![](path)`; the text before is kept and the text after is cleaned in turn |
| MarkdownTools.CaptionSuffix | main-two.py:324 | the scan resumed inside a text cleans the rest of the text as the cleaner would on its own |
| MarkdownTools.CaptionsWithoutBangUnchanged | main-two.py:324 | text without '!' is unchanged |
| MarkdownTools.CaptionCleaningSettles | main-two.py:324 | cleaning a cleaned tag changes nothing more |
| MarkdownTools.LetterRunEnd | main-two.py:409 | the run of ASCII letters ends at the first non-letter |
| MarkdownTools.NoStartInsideRun | main-two.py:409 | no word starts inside a run of letters after its first letter |
| MarkdownTools.ScanCountsEveryStart | main-two.py:409 | the `findall` scan counts exactly the positions where a word starts |
| MarkdownTools.CountMarkdownWords | main-two.py:404-410 | empty input gives (0, 0, 0), and the total is the CJK count plus the English count |
| MarkdownTools.EnglishWordsAreStarts | main-two.py:409 | the English count is the number of word starts in the text left after removing the blocks |
| MarkdownTools.BlockFound | main-two.py:406-407 | a delimiter followed by a body holding no delimiter start and then the delimiter is one block match, ending after the second delimiter |
| MarkdownTools.BlockDropped | main-two.py:406-407 | a delimited block disappears wherever it stands, as long as no delimiter starts before it or inside it, and the text after it is processed as if it were alone |
| MarkdownTools.BlockRemoved | main-two.py:406-407 | a block between two stretches without the delimiter's character disappears, and both stretches are kept |
| MarkdownTools.BlockFreePrefix | main-two.py:406-407 | a prefix without the delimiter's character is copied, and the rest is processed as if it were alone |
| MarkdownTools.CodeBlockNotCounted | main-two.py:406 | a fenced code block, whatever follows it, is removed before counting, so the counts are those of the text around it; the text before it needs no backtick and the code no "```" |
| MarkdownTools.MathBlockNotCounted | main-two.py:407 | a `$$` block, whatever follows it, is removed before counting, so the counts are those of the text around it; the text before it needs no backtick or '$', and the formula no backtick and no "$$" |
| MarkdownTools.CjkCountAdds | main-two.py:408 | the CJK count adds up over concatenation and never exceeds the length |
| PandocCommand.CleanCaptions | main.py:116-121 | text without '!' is unchanged (tags: `CleanCaptionsDropsAlt`; agreement with main-two.py: `CaptionCleanersAgree`) |
| PandocCommand.CaptionCleanersAgree | main.py:116-121 | the caption cleaner of main.py computes what the one of main-two.py computes |
| PandocCommand.CleanCaptionsDropsAlt | main.py:119-120 | `![alt](path)` after a text without '!' becomes `![](path)`; the text before is kept and the text after is cleaned in turn |
| PandocCommand.MdFilePath | main.py:110-113 | the first `output.md` wins; without one, the first Markdown file; nothing exactly when there is no Markdown file |
| PandocCommand.GlobFacts | main.py:111-113 | the first glob result is the first listed path the pattern matches; no result means no path matches |
| PandocCommand.MathFlag | main.py:174-182 | webtex and mathjax get their own flags, and every other mode gets MathML |
| PandocCommand.TempInputIsMarkdown | main.py:142-149 | the cleaned copy keeps the Markdown suffix, so it is never taken for a DOCX input |
| PandocCommand.PrepareInput | main.py:137-145 | Markdown bound for EPUB is cleaned into `temp_<name>`, which becomes the input |
| PandocCommand.CommandLine | main.py:147 | the list starts `pandoc <input> -o <output>`, holds the format's arguments, and ends with `--resource-path=.` |
| PandocCommand.RunPandoc | main.py:133-239 | the step-by-step construction is the modelled call |
| PandocCommand.ExtendForFormat | main.py:151-237 | the appends and extends add exactly the format's arguments and files |
| PandocCommand.PandocRun | main.py:123-239 | the converter runs in the input's directory, and files are written beside the input exactly for an EPUB target (the command lines: `CommandFrame`, `EpubCommand`, `DocxCommand`, `OtherFormatCommand`) |
| PandocCommand.CommandFrame | main.py:239 | every call starts `pandoc <input> -o <output>`, ends with `--resource-path=.`, and runs in the input's directory |
| PandocCommand.EpubCommand | main.py:151-185 | an EPUB gets the table of contents, chapter level, metadata file and standalone flags, then the math flag and style sheet from Markdown, or `-f docx -t epub` and no math flag from DOCX |
| PandocCommand.DocxCommand | main.py:228-237 | a DOCX from Markdown gets the standalone flag and the table-aware reader, plus `--webtex` exactly in webtex mode; from DOCX it gets nothing more |
| PandocCommand.OtherFormatCommand | main.py:147-239 | any other target gets only the head and the tail, and nothing is written |
| PandocCommand.MdToEpubUsesCleanCopy | main.py:138-147 | Markdown to EPUB converts the caption-cleaned copy written first beside the input, and that copy counts as Markdown |
| PandocCommand.OtherInputsUsedAsIs | main.py:138-147 | every other call names the input itself and writes no copy |
| PandocCommand.EpubTitleRule | main.py:151-162 | the metadata file names the stem of `source_filename` when given, else the stem of the converter's input |
| PandocCommand.UntitledMarkdownBook | main.py:153-156 | without `source_filename` a Markdown book's title carries the `temp_` prefix |
| ConverterTool.OutputName | converter_tool.py:24-25 | for a non-empty stem and a dot-free target, the output name's stem is the upload's stem and its suffix is the target |
| ConverterTool.OutputNameKeepsStem | converter_tool.py:17-26 | the output keeps the upload's stem, takes the target as its suffix, and sits in the same directory |
| ConverterTool.ConversionArgs | converter_tool.py:28-40 | the list starts `pandoc <source> -o`, and a target other than epub, docx and md gets nothing more than `pandoc <source> -o <output>` (per target: `ConversionArgsShape`) |
| ConverterTool.BuildConversionArgs | converter_tool.py:28-40 | the step-by-step list is the modelled command line |
| ConverterTool.ConversionArgsShape | converter_tool.py:30-40 | the head is `pandoc <source> -o <output>`, followed by the target's own options and nothing else |
| ConverterTool.ConversionResult | converter_tool.py:44-56 | exactly one of bytes and message is present, and bytes exactly when the run finished and produced a file |
| ConverterTool.MessageIdentifiesFailure | converter_tool.py:46-56 | two failures with the same message failed in the same way, down to the converter's error output |
| ConverterTool.Settings | converter_tool.py:63-74 | "to_epub" turns DOCX or Markdown into EPUB, every other mode turns EPUB into Markdown, and no mode converts a format into itself |
| ConverterTool.ModesAreInverse | converter_tool.py:63-74 | each mode's target gets options of its own, and what one mode produces the other accepts |

## Left out

- PDF text extraction with pdfplumber (comparator.py:23-35) and page counting with pypdf: the extracted text is an input string.
- Matching.LongestMatch: is the true longest common substring. difflib's default autojunk heuristic can report a shorter block when the PDF text has 200 characters or more. It also has its own tie-break among equal blocks, which the tiers do not depend on. Because of autojunk, `Matching.LongestMatchGrowsWithText` and `Comparator.LongerSourceNeverLowersTier` hold for the model, not for difflib: once the longer PDF text passes 200 characters, a character occurring in more than 1% of it becomes junk, and a block that contained it is no longer found.
- Comparator.FuzzyTierIsRatioTest: the ratio is decided on integers. Floating-point rounding of `size / len` is not modelled.
- MarkdownTools.CountMarkdownWords: `\w` beyond ASCII follows the Unicode database. The model takes the character class as a parameter constrained only on ASCII (`WordClass`).
- Paths.LowerAscii: lower-cases ASCII only. Python's `str.lower()` is Unicode-aware; the suffixes compared against are ASCII.
- Paths.Parent: follows `pathlib` for plain relative and absolute paths. Repeated or trailing slashes, which `pathlib` normalises away, are not modelled.
- Paths.Name: the same holds for the final component: for a path with a trailing slash such as "a/b/" the model gives "" where `pathlib` gives "b".
- `subprocess.run`, the file reads and writes, and temporary directories are not modelled. Writes appear as the `Written` list; the style sheet's text is not modelled.
- `Path.resolve()` on the output file is not modelled; the resolved output path is an input.
- Glob order is not modelled: `get_md_file_path` works on a listing given in the directory walk's order.
- The three-pattern `get_md_file_path` of main-two.py:306-310 is not part of this model.
- Clocks (the timestamp in the record id and the upload time) are parameters. The uploaded file object stored in each record (`file_obj`) is not modelled.
- `None` arguments beyond the optional strings of `update_file_status` and `run_pandoc` are not modelled. The transforms take strings.
- BatchFiles.BatchFileManager: holds its list as a value. Aliasing with `st.session_state` beyond this one field is not modelled.
- The Streamlit UI, the HTML cards, their colours and icons, the PDF iframe, and `_inject_images_for_preview` are not modelled.
- The cloud parsing clients, the network, and the thread pool of the batch run are not modelled.
- src/taskpane/taskpane.js (an Office add-in UI and a streaming fetch client) and pdf-epub-check.py (network clients and converter calls) are not part of this model.
