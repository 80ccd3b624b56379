/** The document converter of main.py (`FormatConverter`): where it looks
    for the Markdown a parser produced, how it strips image captions, and
    the converter command line `run_pandoc` assembles for an EPUB or DOCX
    target, with the files it writes beside the input first. */
module PandocCommand {
  import opened Common
  import opened Paths
  import opened Substitution
  import MarkdownTools

  // ---------------------------------------------------------------------
  // clean_image_captions (main.py:116-121)
  // ---------------------------------------------------------------------

  /** `clean_image_captions` of main.py, which has no guard for empty input. */
  function CleanCaptions(md: string): (r: string)
    ensures '!' !in md ==> r == md
  {
    MarkdownTools.CaptionGuardRedundant(md);
    if '!' !in md then
      MarkdownTools.CaptionsWithoutBangUnchanged(md);
      Sub(ImageCaption, md)
    else Sub(ImageCaption, md)
  }

  /** The two caption cleaners of the program compute the same text. */
  lemma CaptionCleanersAgree(md: string)
    ensures CleanCaptions(md) == MarkdownTools.CleanImageCaptions(md)
  {
    MarkdownTools.CaptionGuardRedundant(md);
  }

  /** Each `![alt](path)` loses its alt text and keeps its path; the text
      before it is unchanged and the text after it is cleaned on its own. */
  lemma CleanCaptionsDropsAlt(pre: string, alt: string, path: string, post: string)
    requires '!' !in pre && ']' !in alt && ')' !in path && path != ""
    ensures CleanCaptions(pre + "![" + alt + "](" + path + ")" + post)
         == pre + "![](" + path + ")" + CleanCaptions(post)
  {
    MarkdownTools.CaptionDropped(pre, alt, path, post);
    CaptionCleanersAgree(pre + "![" + alt + "](" + path + ")" + post);
    CaptionCleanersAgree(post);
  }

  // ---------------------------------------------------------------------
  // get_md_file_path (main.py:110-113)
  // ---------------------------------------------------------------------

  // Matched by the glob pattern `**/output.md`.
  predicate IsOutputMd(path: string) {
    Name(path) == "output.md"
  }

  // Matched by the glob pattern `**/*.md`.
  predicate IsMdFile(path: string) {
    var n := Name(path);
    |n| >= 3 && n[|n| - 3..] == ".md"
  }

  lemma OutputMdIsMdFile(path: string)
    ensures IsOutputMd(path) ==> IsMdFile(path)
  {
  }

  /** `i` is the first position whose path passes `test`. */
  predicate IsFirst(listing: seq<string>, test: string -> bool, i: int) {
    0 <= i < |listing| && test(listing[i]) && forall j :: 0 <= j < i ==> !test(listing[j])
  }

  /** No path passes `test`. */
  predicate NoneMatch(listing: seq<string>, test: string -> bool) {
    forall k :: 0 <= k < |listing| ==> !test(listing[k])
  }

  /** `get_md_file_path` over the paths below the folder, in the order the
      directory walk lists them: both patterns are applied to that listing.
      The first `output.md` wins; without one, the first Markdown file;
      without any, nothing. */
  function MdFilePath(listing: seq<string>): (r: Option<string>)
    ensures r.None? <==> NoneMatch(listing, IsMdFile)
    ensures r.Some? ==> r.value in listing && IsMdFile(r.value)
    ensures forall i :: IsFirst(listing, IsOutputMd, i) ==> r == Some(listing[i])
    ensures NoneMatch(listing, IsOutputMd) ==>
      forall i :: IsFirst(listing, IsMdFile, i) ==> r == Some(listing[i])
  {
    var outputs := Filter(listing, IsOutputMd);
    var mds := Filter(listing, IsMdFile);
    GlobFacts(listing, IsOutputMd);
    GlobFacts(listing, IsMdFile);
    if outputs != [] then OutputMdIsMdFile(outputs[0]); Some(outputs[0])
    else if mds != [] then Some(mds[0])
    else None
  }

  /** What `list(glob(...))[0]` yields, for a pattern modelled by `test`. */
  lemma GlobFacts(listing: seq<string>, test: string -> bool)
    ensures Filter(listing, test) == [] <==> NoneMatch(listing, test)
    ensures Filter(listing, test) != [] ==> Filter(listing, test)[0] in listing && test(Filter(listing, test)[0])
    ensures forall i :: IsFirst(listing, test, i) ==> Filter(listing, test) != [] && Filter(listing, test)[0] == listing[i]
  {
    var found := Filter(listing, test);
    if found != [] {
      FilterMembership(listing, test, found[0]);
    } else {
      forall k | 0 <= k < |listing| ensures !test(listing[k]) {
        FilterMembership(listing, test, listing[k]);
      }
    }
    forall i | IsFirst(listing, test, i) ensures found != [] && found[0] == listing[i] {
      FilterHead(listing, test, i);
    }
  }

  // ---------------------------------------------------------------------
  // run_pandoc (main.py:124-239): the command line and the files written
  // ---------------------------------------------------------------------

  /** A file `run_pandoc` writes next to its input before it calls the
      converter. The style sheet's fixed text is not modelled. */
  datatype Written =
    | TempMarkdown(path: string, content: string)
    | Metadata(path: string, content: string)
    | StyleSheet(path: string)

  /** One converter call: the directory it runs in, its argument list, and
      the files written for it beforehand, in the order they are written. */
  datatype Invocation = Invocation(cwd: string, cmd: seq<string>, written: seq<Written>)

  /** Markdown going to EPUB: the only case whose input is cleaned first. */
  predicate IsMdToEpub(inputFile: string, format: string) {
    format == "epub" && LowerAscii(Suffix(Name(inputFile))) == ".md"
  }

  /** The name the converter is given: the input's own, or that of the
      cleaned copy `temp_<name>` written beside it. */
  function ConverterInput(inputFile: string, format: string): string {
    if IsMdToEpub(inputFile, format) then "temp_" + Name(inputFile) else Name(inputFile)
  }

  predicate IsDocxInput(inputName: string) {
    LowerAscii(Suffix(inputName)) == ".docx"
  }

  /** The book title: the stem of `source_filename` when it is given and
      not empty, otherwise the stem of the converter's input. */
  function EpubTitle(inputName: string, sourceFilename: Option<string>): string {
    if Truthy(sourceFilename) then Stem(Name(sourceFilename.value)) else Stem(inputName)
  }

  function MetadataText(title: string): string {
    "---\ntitle: " + title + "\n---\n"
  }

  /** The flag for the requested way of rendering formulas in an EPUB:
      one of three, chosen by name, with MathML for any unknown mode. */
  function MathFlag(mathMode: string): (r: string)
    ensures r == "--webtex" <==> mathMode == "webtex"
    ensures r == "--mathjax" <==> mathMode == "mathjax"
    ensures r == "--mathml" <==> mathMode != "webtex" && mathMode != "mathjax"
  {
    if mathMode == "webtex" then "--webtex"
    else if mathMode == "mathjax" then "--mathjax"
    else "--mathml"
  }

  const EpubFlags: seq<string> := ["--toc", "--toc-depth=3", "--epub-chapter-level=2", "--metadata-file"]

  /** The arguments between the fixed head and the fixed tail. */
  function FormatArgs(format: string, docxInput: bool, mathMode: string, metadataPath: string): seq<string> {
    if format == "epub" then
      EpubFlags + [metadataPath, "--standalone"]
      + (if docxInput then ["-f", "docx", "-t", "epub"] else [MathFlag(mathMode), "--css", "epub-style.css"])
    else if format == "docx" && !docxInput then
      ["--standalone", "-f", "markdown+pipe_tables+grid_tables"] + (if mathMode == "webtex" then ["--webtex"] else [])
    else []
  }

  /** The cleaned copy keeps the Markdown suffix, so it is never taken for
      a DOCX input. */
  lemma TempInputIsMarkdown(inputFile: string, format: string)
    ensures IsMdToEpub(inputFile, format) ==>
      Suffix(ConverterInput(inputFile, format)) == Suffix(Name(inputFile))
      && !IsDocxInput(ConverterInput(inputFile, format))
  {
    if IsMdToEpub(inputFile, format) {
      var n := Name(inputFile);
      assert |LowerAscii(Suffix(n))| == 3;
      SuffixKeptUnderPrefix("temp_", n);
      assert LowerAscii(Suffix("temp_" + n)) == ".md";
    }
  }

  /** The cleaned copy written before the converter's arguments are chosen. */
  function TempFiles(inputFile: string, format: string, content: string): seq<Written> {
    if IsMdToEpub(inputFile, format)
    then [TempMarkdown(Join(Parent(inputFile), ConverterInput(inputFile, format)), CleanCaptions(content))]
    else []
  }

  /** The first step of `run_pandoc`: Markdown bound for EPUB is cleaned
      into `temp_<name>`, which becomes the converter's input. */
  method PrepareInput(inputFile: string, format: string, content: string) returns (inputName: string, written: seq<Written>)
    ensures inputName == ConverterInput(inputFile, format)
    ensures written == TempFiles(inputFile, format, content)
  {
    var cwd := Parent(inputFile);
    inputName := Name(inputFile);
    written := [];
    if format == "epub" && LowerAscii(Suffix(inputName)) == ".md" {
      var cleaned := CleanCaptions(content);
      inputName := "temp_" + inputName;
      written := written + [TempMarkdown(Join(cwd, inputName), cleaned)];
    }
  }

  /** The metadata file, and for Markdown the style sheet, written for an EPUB. */
  function FormatFiles(format: string, docxInput: bool, cwd: string, title: string): seq<Written> {
    (if format == "epub" then [Metadata(Join(cwd, "epub-metadata.yaml"), MetadataText(title))] else [])
    + (if format == "epub" && !docxInput then [StyleSheet(Join(cwd, "epub-style.css"))] else [])
  }

  /** The converter's argument list: the fixed head naming the input and
      the output, the format's own arguments, and the fixed tail. */
  function CommandLine(inputName: string, output: string, args: seq<string>): (cmd: seq<string>)
    ensures |cmd| == |args| + 5 && cmd[1] == inputName
    ensures cmd[..4] == ["pandoc", inputName, "-o", output] && cmd[4..|cmd| - 1] == args
    ensures cmd[|cmd| - 1] == "--resource-path=."
  {
    var cmd := ["pandoc", inputName, "-o", output] + args + ["--resource-path=."];
    assert cmd[4..|cmd| - 1] == args;
    cmd
  }

  /** The whole call `run_pandoc` makes; `output` is the resolved output
      path and `content` the text of the input file. */
  function PandocRun(inputFile: string, output: string, format: string, sourceFilename: Option<string>,
                     mathMode: string, content: string): (call: Invocation)
    ensures call.cwd == Parent(inputFile)
    ensures call.written != [] <==> format == "epub"
  {
    var cwd := Parent(inputFile);
    var inputName := ConverterInput(inputFile, format);
    var docxInput := IsDocxInput(inputName);
    var cmd := CommandLine(inputName, output, FormatArgs(format, docxInput, mathMode, Join(cwd, "epub-metadata.yaml")));
    var written := TempFiles(inputFile, format, content)
      + FormatFiles(format, docxInput, cwd, EpubTitle(inputName, sourceFilename));
    Invocation(cwd, cmd, written)
  }

  /** `run_pandoc` up to the converter call. */
  method RunPandoc(inputFile: string, output: string, format: string, sourceFilename: Option<string>,
                   mathMode: string, content: string) returns (call: Invocation)
    ensures call == PandocRun(inputFile, output, format, sourceFilename, mathMode, content)
  {
    var cwd := Parent(inputFile);
    var inputName, written := PrepareInput(inputFile, format, content);
    var cmd := ["pandoc", inputName, "-o", output];
    var docxInput := IsDocxInput(inputName);
    var title := if Truthy(sourceFilename) then Stem(Name(sourceFilename.value)) else Stem(inputName);
    cmd, written := ExtendForFormat(cmd, written, format, docxInput, mathMode, cwd, title);
    cmd := cmd + ["--resource-path=."];
    call := Invocation(cwd, cmd, written);
  }

  /** The format-dependent part of `run_pandoc`, extending the list the way
      the source does, one `append` or `extend` at a time. */
  method ExtendForFormat(cmd0: seq<string>, written0: seq<Written>, format: string, docxInput: bool,
                         mathMode: string, cwd: string, title: string)
    returns (cmd: seq<string>, written: seq<Written>)
    ensures cmd == cmd0 + FormatArgs(format, docxInput, mathMode, Join(cwd, "epub-metadata.yaml"))
    ensures written == written0 + FormatFiles(format, docxInput, cwd, title)
  {
    cmd, written := cmd0, written0;
    if format == "epub" {
      var metadataPath := Join(cwd, "epub-metadata.yaml");
      written := written + [Metadata(metadataPath, "---\ntitle: " + title + "\n---\n")];
      cmd := cmd + ["--toc", "--toc-depth=3", "--epub-chapter-level=2", "--metadata-file", metadataPath, "--standalone"];
      if !docxInput {
        if mathMode == "webtex" {
          cmd := cmd + ["--webtex"];
        } else if mathMode == "mathjax" {
          cmd := cmd + ["--mathjax"];
        } else {
          cmd := cmd + ["--mathml"];
        }
        cmd := cmd + ["--css", "epub-style.css"];
        written := written + [StyleSheet(Join(cwd, "epub-style.css"))];
      } else {
        cmd := cmd + ["-f", "docx", "-t", "epub"];
      }
    } else if format == "docx" {
      if !docxInput {
        cmd := cmd + ["--standalone", "-f", "markdown+pipe_tables+grid_tables"];
        if mathMode == "webtex" {
          cmd := cmd + ["--webtex"];
        }
      }
    }
  }

  // ---------------------------------------------------------------------
  // What the command line promises
  // ---------------------------------------------------------------------

  /** Every call starts `pandoc <input> -o <output>` and ends with
      `--resource-path=.`, and runs in the input's directory. */
  lemma CommandFrame(inputFile: string, output: string, format: string, sourceFilename: Option<string>,
                     mathMode: string, content: string)
    ensures var call := PandocRun(inputFile, output, format, sourceFilename, mathMode, content);
      |call.cmd| >= 5
      && call.cmd[..4] == ["pandoc", ConverterInput(inputFile, format), "-o", output]
      && call.cmd[|call.cmd| - 1] == "--resource-path=."
      && call.cwd == Parent(inputFile)
  {
  }

  /** The middle of `head + args + tail` is `args`. */
  lemma Middle(cmd: seq<string>, head: seq<string>, args: seq<string>, tail: seq<string>)
    requires cmd == head + args + tail
    ensures |cmd| == |head| + |args| + |tail| && cmd[|head|..|head| + |args|] == args
  {
  }

  /** An EPUB always gets the table of contents, the chapter level, the
      metadata file and `--standalone`. From Markdown it then gets the math
      flag and the style sheet; from DOCX it gets the reader and writer
      names and no math flag. */
  lemma EpubCommand(inputFile: string, output: string, sourceFilename: Option<string>,
                    mathMode: string, content: string)
    ensures var call := PandocRun(inputFile, output, "epub", sourceFilename, mathMode, content);
      var cmd := call.cmd;
      |cmd| >= 14
      && cmd[4..10] == ["--toc", "--toc-depth=3", "--epub-chapter-level=2",
                        "--metadata-file", Join(call.cwd, "epub-metadata.yaml"), "--standalone"]
      && (!IsDocxInput(cmd[1]) ==> |cmd| == 14 && cmd[10..13] == [MathFlag(mathMode), "--css", "epub-style.css"])
      && (IsDocxInput(cmd[1]) ==> |cmd| == 15 && cmd[10..14] == ["-f", "docx", "-t", "epub"])
  {
    var name := ConverterInput(inputFile, "epub");
    EpubArgsShape(PandocRun(inputFile, output, "epub", sourceFilename, mathMode, content).cmd, name, output,
                  IsDocxInput(name), mathMode, Join(Parent(inputFile), "epub-metadata.yaml"));
  }

  lemma EpubArgsShape(cmd: seq<string>, name: string, output: string, docx: bool, mathMode: string, meta: string)
    requires cmd == ["pandoc", name, "-o", output] + FormatArgs("epub", docx, mathMode, meta) + ["--resource-path=."]
    ensures cmd[1] == name && |cmd| >= 14
    ensures cmd[4..10] == ["--toc", "--toc-depth=3", "--epub-chapter-level=2", "--metadata-file", meta, "--standalone"]
    ensures !docx ==> |cmd| == 14 && cmd[10..13] == [MathFlag(mathMode), "--css", "epub-style.css"]
    ensures docx ==> |cmd| == 15 && cmd[10..14] == ["-f", "docx", "-t", "epub"]
  {
    var args := FormatArgs("epub", docx, mathMode, meta);
    Middle(cmd, ["pandoc", name, "-o", output], args, ["--resource-path=."]);
    var common := ["--toc", "--toc-depth=3", "--epub-chapter-level=2", "--metadata-file", meta, "--standalone"];
    if docx {
      var rest := ["-f", "docx", "-t", "epub"];
      assert args == common + rest;
      assert cmd[4..10] == args[..6] == common;
      assert cmd[10..14] == args[6..] == rest;
    } else {
      var rest := [MathFlag(mathMode), "--css", "epub-style.css"];
      assert args == common + rest;
      assert cmd[4..10] == args[..6] == common;
      assert cmd[10..13] == args[6..] == rest;
    }
  }

  /** A DOCX from Markdown gets `--standalone` and the table-aware reader,
      plus `--webtex` exactly when that mode is asked for; a DOCX from DOCX
      gets nothing between the head and the tail. */
  lemma DocxCommand(inputFile: string, output: string, sourceFilename: Option<string>,
                    mathMode: string, content: string)
    ensures var call := PandocRun(inputFile, output, "docx", sourceFilename, mathMode, content);
      var cmd := call.cmd;
      cmd[1] == Name(inputFile) && call.written == []
      && (IsDocxInput(cmd[1]) ==> |cmd| == 5)
      && (!IsDocxInput(cmd[1]) ==>
            cmd[4..7] == ["--standalone", "-f", "markdown+pipe_tables+grid_tables"]
            && (mathMode == "webtex" <==> |cmd| == 9)
            && (mathMode == "webtex" ==> cmd[7] == "--webtex"))
  {
    PlainInput(inputFile, "docx", content);
    var name := Name(inputFile);
    var call := PandocRun(inputFile, output, "docx", sourceFilename, mathMode, content);
    var docx := IsDocxInput(name);
    DocxArgsShape(call.cmd, name, output, docx, mathMode, Join(Parent(inputFile), "epub-metadata.yaml"));
    NoFilesBesideDocx(call.written, docx, call.cwd, EpubTitle(name, sourceFilename));
  }

  lemma DocxArgsShape(cmd: seq<string>, name: string, output: string, docx: bool, mathMode: string, meta: string)
    requires cmd == ["pandoc", name, "-o", output] + FormatArgs("docx", docx, mathMode, meta) + ["--resource-path=."]
    ensures cmd[1] == name
    ensures docx ==> |cmd| == 5
    ensures !docx ==>
      cmd[4..7] == ["--standalone", "-f", "markdown+pipe_tables+grid_tables"]
      && (mathMode == "webtex" <==> |cmd| == 9)
      && (mathMode == "webtex" ==> cmd[7] == "--webtex")
  {
    var args := FormatArgs("docx", docx, mathMode, meta);
    Middle(cmd, ["pandoc", name, "-o", output], args, ["--resource-path=."]);
    if !docx {
      assert args[..3] == ["--standalone", "-f", "markdown+pipe_tables+grid_tables"];
      assert cmd[4..7] == args[..3];
    }
  }

  lemma NoFilesBesideDocx(written: seq<Written>, docx: bool, cwd: string, title: string)
    requires written == [] + FormatFiles("docx", docx, cwd, title)
    ensures written == []
  {
  }

  /** Without the Markdown-to-EPUB cleaning the converter reads the input
      itself and no copy is written. */
  lemma PlainInput(inputFile: string, format: string, content: string)
    requires !IsMdToEpub(inputFile, format)
    ensures ConverterInput(inputFile, format) == Name(inputFile)
    ensures TempFiles(inputFile, format, content) == []
  {
  }

  /** Any other target gets only the head and the tail, and nothing is written. */
  lemma OtherFormatCommand(inputFile: string, output: string, format: string, sourceFilename: Option<string>,
                           mathMode: string, content: string)
    requires format != "epub" && format != "docx"
    ensures var call := PandocRun(inputFile, output, format, sourceFilename, mathMode, content);
      call.cmd == ["pandoc", Name(inputFile), "-o", output, "--resource-path=."] && call.written == []
  {
  }

  /** Markdown going to EPUB is converted from a cleaned copy: the first
      file written is `temp_<name>` beside the input, holding the text with
      the image captions removed, and the command names that copy, which
      counts as Markdown. */
  lemma MdToEpubUsesCleanCopy(inputFile: string, output: string, sourceFilename: Option<string>,
                              mathMode: string, content: string)
    requires IsMdToEpub(inputFile, "epub")
    ensures var call := PandocRun(inputFile, output, "epub", sourceFilename, mathMode, content);
      call.cmd[1] == "temp_" + Name(inputFile) && !IsDocxInput(call.cmd[1])
      && call.written[0] == TempMarkdown(Join(call.cwd, call.cmd[1]), CleanCaptions(content))
      && Name(call.written[0].path) == call.cmd[1]
  {
    CleanInput(inputFile, content);
    TempInputIsMarkdown(inputFile, "epub");
    CopyNameKept(inputFile);
    var call := PandocRun(inputFile, output, "epub", sourceFilename, mathMode, content);
    var docx := IsDocxInput(call.cmd[1]);
    FirstWritten(call.written, TempFiles(inputFile, "epub", content),
                 FormatFiles("epub", docx, call.cwd, EpubTitle(call.cmd[1], sourceFilename)));
  }

  /** The copy's path ends in the copy's name. */
  lemma CopyNameKept(inputFile: string)
    ensures Name(Join(Parent(inputFile), "temp_" + Name(inputFile))) == "temp_" + Name(inputFile)
  {
    NameOfJoin(Parent(inputFile), "temp_" + Name(inputFile));
  }

  lemma FirstWritten(written: seq<Written>, temp: seq<Written>, rest: seq<Written>)
    requires written == temp + rest && |temp| == 1
    ensures written[0] == temp[0]
  {
  }

  /** With the cleaning, the converter reads `temp_<name>`, the one copy written. */
  lemma CleanInput(inputFile: string, content: string)
    requires IsMdToEpub(inputFile, "epub")
    ensures ConverterInput(inputFile, "epub") == "temp_" + Name(inputFile)
    ensures TempFiles(inputFile, "epub", content)
      == [TempMarkdown(Join(Parent(inputFile), "temp_" + Name(inputFile)), CleanCaptions(content))]
  {
  }

  /** Every other call names the input itself and writes no copy. */
  lemma OtherInputsUsedAsIs(inputFile: string, output: string, format: string, sourceFilename: Option<string>,
                            mathMode: string, content: string)
    requires !IsMdToEpub(inputFile, format)
    ensures var call := PandocRun(inputFile, output, format, sourceFilename, mathMode, content);
      call.cmd[1] == Name(inputFile) && forall w :: w in call.written ==> !w.TempMarkdown?
  {
    PlainInput(inputFile, format, content);
    var name := Name(inputFile);
    var call := PandocRun(inputFile, output, format, sourceFilename, mathMode, content);
    var docx := IsDocxInput(name);
    FormatFilesAreNoCopies(call.written, [], format, docx, call.cwd, EpubTitle(name, sourceFilename));
  }

  /** Only the first step writes a Markdown copy. */
  lemma FormatFilesAreNoCopies(written: seq<Written>, temp: seq<Written>, format: string, docx: bool,
                               cwd: string, title: string)
    requires written == temp + FormatFiles(format, docx, cwd, title)
    requires forall w :: w in temp ==> !w.TempMarkdown?
    ensures forall w :: w in written ==> !w.TempMarkdown?
  {
  }

  /** The EPUB metadata file is written beside the input and names the
      title: the stem of `source_filename` when one is given, otherwise the
      stem of the file the converter reads. */
  lemma EpubTitleRule(inputFile: string, output: string, sourceFilename: Option<string>,
                      mathMode: string, content: string)
    ensures var call := PandocRun(inputFile, output, "epub", sourceFilename, mathMode, content);
      var title := if Truthy(sourceFilename) then Stem(Name(sourceFilename.value)) else Stem(call.cmd[1]);
      Metadata(Join(call.cwd, "epub-metadata.yaml"), MetadataText(title)) in call.written
  {
    var name := ConverterInput(inputFile, "epub");
    var call := PandocRun(inputFile, output, "epub", sourceFilename, mathMode, content);
    var docx := IsDocxInput(name);
    MetadataWritten(call.written, TempFiles(inputFile, "epub", content), docx, call.cwd, EpubTitle(name, sourceFilename));
  }

  /** The metadata file comes right after any cleaned copy. */
  lemma MetadataWritten(written: seq<Written>, temp: seq<Written>, docx: bool, cwd: string, title: string)
    requires written == temp + FormatFiles("epub", docx, cwd, title)
    ensures Metadata(Join(cwd, "epub-metadata.yaml"), MetadataText(title)) in written
  {
    assert written[|temp|] == Metadata(Join(cwd, "epub-metadata.yaml"), MetadataText(title));
  }

  /** Without `source_filename`, a Markdown book is titled after its cleaned
      copy, so the title carries the `temp_` prefix. */
  lemma UntitledMarkdownBook(inputFile: string)
    requires IsMdToEpub(inputFile, "epub")
    ensures EpubTitle(ConverterInput(inputFile, "epub"), None) == "temp_" + Stem(Name(inputFile))
  {
    var n := Name(inputFile);
    assert |LowerAscii(Suffix(n))| == 3;
    SuffixKeptUnderPrefix("temp_", n);
    StemSuffixSplit(n);
    StemSuffixSplit("temp_" + n);
    assert "temp_" + n == ("temp_" + Stem(n)) + Suffix(n);
  }
}
