/** The stand-alone format converter (converter_tool.py): the output name it
    derives from the upload, the converter command line for each target
    format, how the outcome of the run becomes either the produced bytes or
    an error message, and which formats each screen mode accepts. */
module ConverterTool {
  import opened Common
  import opened Paths

  // ---------------------------------------------------------------------
  // Naming (converter_tool.py:17-26)
  // ---------------------------------------------------------------------

  /** `f"{source_path.stem}.{target_format}"`. */
  function OutputName(sourcePath: string, target: string): (r: string)
    ensures Stem(Name(sourcePath)) != "" && target != "" && '.' !in target ==>
      Stem(r) == Stem(Name(sourcePath)) && Suffix(r) == "." + target
  {
    if Stem(Name(sourcePath)) != "" && target != "" && '.' !in target then
      StemOfDotted(Stem(Name(sourcePath)), target);
      Stem(Name(sourcePath)) + "." + target
    else Stem(Name(sourcePath)) + "." + target
  }

  /** A stem is a prefix of its name, so it holds no '/' when the name holds none. */
  lemma StemIsPrefix(name: string)
    ensures Stem(name) == name[..|Stem(name)|]
    ensures '/' !in name ==> '/' !in Stem(name)
  {
    StemSuffixSplit(name);
    assert name == Stem(name) + Suffix(name);
    assert name[..|Stem(name)|] == Stem(name);
  }

  /** The upload saved in the scratch directory keeps its name; the output
      is named after its stem with the target as the new suffix, and sits
      in the same directory. */
  lemma OutputNameKeepsStem(tempDir: string, filename: string, target: string)
    requires filename != "" && '/' !in filename
    requires target != "" && '.' !in target && '/' !in target
    ensures var out := OutputName(Join(tempDir, filename), target);
      Stem(out) == Stem(filename) && Suffix(out) == "." + target
      && Name(Join(tempDir, out)) == out
  {
    NameOfJoin(tempDir, filename);
    StemSuffixSplit(filename);
    StemIsPrefix(filename);
    var out := OutputName(Join(tempDir, filename), target);
    StemOfDotted(Stem(filename), target);
    assert '/' !in out by {
      forall k | 0 <= k < |out| ensures out[k] != '/' {
        if k < |Stem(filename)| {
          assert out[k] == Stem(filename)[k];
        } else if k > |Stem(filename)| {
          assert out[k] == target[k - |Stem(filename)| - 1];
        }
      }
    }
    NameOfJoin(tempDir, out);
  }

  // ---------------------------------------------------------------------
  // The command line (converter_tool.py:28-40)
  // ---------------------------------------------------------------------

  /** The options added for each target format. */
  function TargetArgs(target: string, stem: string): seq<string> {
    if target == "epub" then ["--standalone", "--metadata", "title=" + stem]
    else if target == "docx" then ["--standalone"]
    else if target == "md" then ["-t", "markdown", "--wrap=none"]
    else []
  }

  /** The command line for converting the upload `filename`, saved in
      `tempDir`, to `target`. */
  function ConversionArgs(tempDir: string, filename: string, target: string): (cmd: seq<string>)
    ensures |cmd| >= 4 && cmd[0] == "pandoc" && cmd[1] == Join(tempDir, filename) && cmd[2] == "-o"
    ensures target != "epub" && target != "docx" && target != "md" ==> |cmd| == 4
  {
    var source := Join(tempDir, filename);
    ["pandoc", source, "-o", Join(tempDir, OutputName(source, target))]
      + TargetArgs(target, Stem(Name(source)))
  }

  /** The list as `run_conversion` builds it: the fixed head, then one
      `extend` for the target. */
  method BuildConversionArgs(tempDir: string, filename: string, target: string) returns (cmd: seq<string>)
    ensures cmd == ConversionArgs(tempDir, filename, target)
  {
    var sourcePath := Join(tempDir, filename);
    var stemName := Stem(Name(sourcePath));
    var outputPath := Join(tempDir, stemName + "." + target);
    cmd := ["pandoc", sourcePath, "-o", outputPath];
    if target == "epub" {
      cmd := cmd + ["--standalone", "--metadata", "title=" + stemName];
    } else if target == "docx" {
      cmd := cmd + ["--standalone"];
    } else if target == "md" {
      cmd := cmd + ["-t", "markdown", "--wrap=none"];
    }
  }

  /** Every command starts `pandoc <source> -o <output>`. An EPUB gets a
      stand-alone document titled after the stem, a DOCX only the
      stand-alone flag, Markdown the plain Markdown writer without line
      wrapping, and any other target nothing more. */
  lemma ConversionArgsShape(tempDir: string, filename: string, target: string)
    ensures var cmd := ConversionArgs(tempDir, filename, target);
      var source := Join(tempDir, filename);
      |cmd| >= 4 && cmd[..4] == ["pandoc", source, "-o", Join(tempDir, OutputName(source, target))]
      && (target == "epub" ==> cmd[4..] == ["--standalone", "--metadata", "title=" + Stem(Name(source))])
      && (target == "docx" ==> cmd[4..] == ["--standalone"])
      && (target == "md" ==> cmd[4..] == ["-t", "markdown", "--wrap=none"])
      && (target != "epub" && target != "docx" && target != "md" ==> |cmd| == 4)
  {
    var source := Join(tempDir, filename);
    var head := ["pandoc", source, "-o", Join(tempDir, OutputName(source, target))];
    var cmd := ConversionArgs(tempDir, filename, target);
    assert cmd == head + TargetArgs(target, Stem(Name(source)));
    assert cmd[..4] == head && cmd[4..] == TargetArgs(target, Stem(Name(source)));
  }

  // ---------------------------------------------------------------------
  // The outcome (converter_tool.py:43-56)
  // ---------------------------------------------------------------------

  /** How the converter process ended: normally, with a non-zero status
      and its error output, or not at all because it is not installed. */
  datatype RunOutcome = Finished | ProcessFailed(stderr: string) | NotInstalled

  const NotInstalledMessage: string := "未找到 Pandoc，请确保系统已安装 Pandoc。"
  const NoOutputMessage: string := "转换失败，未生成输出文件。"

  function ProcessFailedMessage(stderr: string): string {
    "Pandoc 转换错误: " + stderr
  }

  /** The pair `run_conversion` returns, given how the process ended and
      the bytes of the output file when it exists. */
  function ConversionResult(outcome: RunOutcome, produced: Option<seq<bv8>>): (r: (Option<seq<bv8>>, Option<string>))
    ensures r.0.Some? != r.1.Some?
    ensures r.0.Some? <==> outcome.Finished? && produced.Some?
    ensures r.0.Some? ==> r.0 == produced
  {
    match outcome
    case ProcessFailed(stderr) => (None, Some(ProcessFailedMessage(stderr)))
    case NotInstalled => (None, Some(NotInstalledMessage))
    case Finished =>
      if produced.Some? then (produced, None) else (None, Some(NoOutputMessage))
  }

  /** The three kinds of failure the caller can see, one per message. */
  datatype Failure = ConverterError(stderr: string) | MissingConverter | MissingOutput

  function FailureOf(outcome: RunOutcome, produced: Option<seq<bv8>>): Option<Failure> {
    match outcome
    case ProcessFailed(stderr) => Some(ConverterError(stderr))
    case NotInstalled => Some(MissingConverter)
    case Finished => if produced.Some? then None else Some(MissingOutput)
  }

  /** The message tells the failures apart: two runs that report the same
      message failed in the same way, down to the converter's error output. */
  lemma MessageIdentifiesFailure(o1: RunOutcome, p1: Option<seq<bv8>>, o2: RunOutcome, p2: Option<seq<bv8>>)
    requires ConversionResult(o1, p1).1.Some?
    requires ConversionResult(o1, p1).1 == ConversionResult(o2, p2).1
    ensures FailureOf(o1, p1) == FailureOf(o2, p2)
  {
    var m := ConversionResult(o1, p1).1.value;
    assert NotInstalledMessage[0] != 'P' && NoOutputMessage[0] != 'P';
    assert NotInstalledMessage[0] != NoOutputMessage[0];
    if o1.ProcessFailed? && o2.ProcessFailed? {
      var prefix := "Pandoc 转换错误: ";
      assert m[..|prefix|] + o1.stderr == prefix + o1.stderr;
      assert ProcessFailedMessage(o1.stderr)[|prefix|..] == o1.stderr;
      assert ProcessFailedMessage(o2.stderr)[|prefix|..] == o2.stderr;
    }
  }

  // ---------------------------------------------------------------------
  // Screen modes (converter_tool.py:58-74)
  // ---------------------------------------------------------------------

  datatype ModeSettings = ModeSettings(allowed: seq<string>, target: string)

  /** `render_converter_ui`: "to_epub" turns DOCX or Markdown into EPUB;
      every other mode turns EPUB into Markdown. No mode converts a format
      into itself, and the target is EPUB exactly in mode "to_epub". */
  function Settings(mode: string): (r: ModeSettings)
    ensures r.target !in r.allowed
    ensures r.target == "epub" <==> mode == "to_epub"
    ensures mode == "to_epub" ==> r.allowed == ["docx", "md"]
    ensures mode != "to_epub" ==> r.allowed == ["epub"] && r.target == "md"
  {
    if mode == "to_epub" then ModeSettings(["docx", "md"], "epub")
    else ModeSettings(["epub"], "md")
  }

  /** Each target a mode asks for gets options of its own, and the two
      modes are each other's inverse: what one produces the other accepts. */
  lemma ModesAreInverse(mode: string, stem: string)
    ensures TargetArgs(Settings(mode).target, stem) != []
    ensures Settings("to_epub").target in Settings("to_md").allowed
    ensures Settings("to_md").target in Settings("to_epub").allowed
  {
  }
}
