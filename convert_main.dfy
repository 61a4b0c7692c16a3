/**
 * The decision logic of the convert tool (tools/convert/main.cpp): the
 * application name shown by the usage text, the derivation of the JSON Lines
 * output file name, and the argument checks of main that decide whether a
 * conversion starts and where its output goes.
 */
module ConvertTool {
  import opened StdString

  /**
   * kOutput, the value argument naming the output file. Its definition is
   * not part of this model; kArguments (main.cpp:36) lists "--output".
   */
  const Output: string := "--output"

  /** The suffix of a derived output file name. */
  const JsonlSuffix: string := ".jsonl"

  /** The output name that selects standard output. */
  const StdoutName: string := "stdout"

  /** The directory separators find_last_of("/\\") looks for. */
  const Separators: set<char> := {'/', '\\'}

  /**
   * What the argument parser reports after parsing the command line: the
   * options present (read only by branches of main outside this model), the
   * value arguments with their values, the positional arguments in order,
   * and whether parsing failed.
   */
  datatype ArgumentParser = ArgumentParser(
    options: set<string>,
    arguments: map<string, CppString>,
    positional: seq<CppString>,
    invalid: bool)
  {
    predicate IsArgumentSet(argument: string)
    {
      argument in arguments
    }

    function GetArgumentValue(argument: string): (value: CppString)
      requires IsArgumentSet(argument)
    {
      arguments[argument]
    }

    function GetPositionalArgumentsCount(): (count: nat)
    {
      |positional|
    }
  }

  predicate EndsWith(s: string, suffix: string)
  {
    |suffix| <= |s| && s[|s| - |suffix|..] == suffix
  }

  /**
   * The base name of a path: every trailing character up to the nearest
   * '/' or '\', scanning from the end.
   */
  function Basename(s: string): (r: string)
    decreases |s|
  {
    if s == [] then []
    else if s[|s| - 1] in Separators then []
    else Basename(s[..|s| - 1]) + [s[|s| - 1]]
  }

  /**
   * The base name is the suffix after the last separator: a suffix of the
   * path that holds no separator and is either the whole path or preceded
   * by a separator.
   */
  lemma {:induction false} BasenameIsSuffixAfterLastSeparator(s: string)
    ensures var r := Basename(s);
      && |r| <= |s| && r == s[|s| - |r|..]
      && (forall i :: 0 <= i < |r| ==> r[i] !in Separators)
      && (|r| < |s| ==> s[|s| - |r| - 1] in Separators)
    decreases |s|
  {
    if s != [] && s[|s| - 1] !in Separators {
      var init := s[..|s| - 1];
      BasenameIsSuffixAfterLastSeparator(init);
      var q := Basename(init);
      assert Basename(s) == q + [s[|s| - 1]];
      assert init[|init| - |q|..] + [s[|s| - 1]] == s[|s| - |q| - 1..];
    }
  }

  /** A path without separators is its own base name. */
  lemma BasenameWithoutSeparator(s: string)
    requires forall i :: 0 <= i < |s| ==> s[i] !in Separators
    ensures Basename(s) == s
  {
    BasenameIsSuffixAfterLastSeparator(s);
  }

  /** The base name of a prefix of `s` is the text after the last separator found in that prefix. */
  lemma {:induction false} BasenameOfPrefix(s: CppString, n: nat)
    requires n <= |s|
    ensures var p := LastOfBefore(s, Separators, n);
      Basename(s[..n]) == if p == Npos then s[..n] else s[p + 1..n]
  {
    if n > 0 {
      var t := s[..n];
      var last := s[n - 1];
      assert t[|t| - 1] == last;
      if last !in Separators {
        var init := s[..n - 1];
        assert t[..|t| - 1] == init;
        assert Basename(t) == Basename(init) + [last];
        BasenameOfPrefix(s, n - 1);
        var p := LastOfBefore(s, Separators, n - 1);
        assert LastOfBefore(s, Separators, n) == p;
        if p == Npos {
          assert Basename(init) == init;
          assert init + [last] == t;
        } else {
          assert Basename(init) == s[p + 1..n - 1];
          assert s[p + 1..n - 1] + [last] == s[p + 1..n];
        }
      }
    }
  }

  /**
   * The first step of PrintUsage: the application name is the executable
   * path with everything up to and including its last separator replaced by
   * nothing. With no separator find_last_of returns npos, npos + 1 wraps to
   * 0 in size_t, and the replace removes nothing.
   */
  method PrintUsageAppName(exeName: CppString) returns (appName: string)
    ensures appName == Basename(exeName)
  {
    appName := exeName;
    var dirLocation := FindLastOf(appName, Separators);
    if dirLocation >= 0 {
      var count := (dirLocation + 1) % SizeModulus;
      assert count == if dirLocation == Npos then 0 else dirLocation + 1;
      appName := Replace(appName, 0, count, "");
    }
    BasenameOfPrefix(exeName, |exeName|);
    assert exeName[..|exeName|] == exeName;
  }

  /**
   * GetOutputFileName: the value of --output when it is given; otherwise the
   * input name cut at the first occurrence of the capture file extension (if
   * any), followed by ".jsonl".
   */
  function GetOutputFileName(argParser: ArgumentParser, inputFilename: CppString, extension: string): (r: string)
    ensures argParser.IsArgumentSet(Output) ==> r == argParser.GetArgumentValue(Output)
    ensures !argParser.IsArgumentSet(Output) ==> EndsWith(r, JsonlSuffix)
  {
    if argParser.IsArgumentSet(Output) then
      argParser.GetArgumentValue(Output)
    else
      var suffixPos := Find(inputFilename, extension, 0);
      var stem := if suffixPos != Npos then Substr(inputFilename, 0, suffixPos) else inputFilename;
      stem + JsonlSuffix
  }

  /**
   * With no --output and an input name that contains the extension, the
   * result is the input before the first occurrence of the extension,
   * followed by ".jsonl"; whatever follows the extension is dropped.
   */
  lemma OutputNameCutsAtFirstExtension(argParser: ArgumentParser, inputFilename: CppString, extension: string, k: nat)
    requires !argParser.IsArgumentSet(Output)
    requires OccursAt(inputFilename, extension, k)
    ensures var r := GetOutputFileName(argParser, inputFilename, extension);
      var cut := |r| - |JsonlSuffix|;
      && 0 <= cut <= k
      && r == inputFilename[..cut] + JsonlSuffix
      && OccursAt(inputFilename, extension, cut)
      && forall j :: 0 <= j < cut ==> !OccursAt(inputFilename, extension, j)
  {
  }

  /** With no --output and no occurrence of the extension, ".jsonl" is appended to the whole input name. */
  lemma OutputNameWithoutExtension(argParser: ArgumentParser, inputFilename: CppString, extension: string)
    requires !argParser.IsArgumentSet(Output)
    requires forall j :: 0 <= j <= |inputFilename| ==> !OccursAt(inputFilename, extension, j)
    ensures GetOutputFileName(argParser, inputFilename, extension) == inputFilename + JsonlSuffix
  {
  }

  /** A pattern cannot occur where its first character does not. */
  lemma FirstCharMismatch(s: string, pat: string, j: nat)
    requires 0 < |pat| && j < |s| && s[j] != pat[0]
    ensures !OccursAt(s, pat, j)
  {
  }

  /*
   * The usage text (main.cpp:60-62) describes the default output name as the
   * input with "gfxr" replaced by "jsonl". The next four lemmas show, for the
   * extension ".gfxr", where that description and the code agree and where
   * they part: text after the first occurrence is dropped, an input without
   * the extension keeps its own suffix, and an occurrence in a directory
   * name cuts there.
   */

  lemma DefaultOutputNameOfPlainCapture(argParser: ArgumentParser)
    requires !argParser.IsArgumentSet(Output)
    ensures GetOutputFileName(argParser, "cap.gfxr", ".gfxr") == "cap.jsonl"
  {
    OutputNameCutsAtFirstExtension(argParser, "cap.gfxr", ".gfxr", 3);
    forall j | 0 <= j < 3
      ensures !OccursAt("cap.gfxr", ".gfxr", j)
    {
      FirstCharMismatch("cap.gfxr", ".gfxr", j);
    }
  }

  lemma DefaultOutputNameDropsTextAfterExtension(argParser: ArgumentParser)
    requires !argParser.IsArgumentSet(Output)
    ensures GetOutputFileName(argParser, "a.gfxr.bak", ".gfxr") == "a.jsonl"
  {
    OutputNameCutsAtFirstExtension(argParser, "a.gfxr.bak", ".gfxr", 1);
    FirstCharMismatch("a.gfxr.bak", ".gfxr", 0);
  }

  lemma DefaultOutputNameWithoutExtension(argParser: ArgumentParser)
    requires !argParser.IsArgumentSet(Output)
    ensures GetOutputFileName(argParser, "x.bin", ".gfxr") == "x.bin.jsonl"
  {
    FirstCharMismatch("x.bin", ".gfxr", 0);
    OutputNameWithoutExtension(argParser, "x.bin", ".gfxr");
  }

  lemma DefaultOutputNameCutsInDirectory(argParser: ArgumentParser)
    requires !argParser.IsArgumentSet(Output)
    ensures GetOutputFileName(argParser, "d.gfxr/t.gfxr", ".gfxr") == "d.jsonl"
  {
    OutputNameCutsAtFirstExtension(argParser, "d.gfxr/t.gfxr", ".gfxr", 1);
    FirstCharMismatch("d.gfxr/t.gfxr", ".gfxr", 0);
  }

  /** Where the converted text goes. */
  datatype OutputTarget = StandardOutput | OutputFile(path: string)

  /**
   * What the argument checks of main decide: exit with a status, or go on to
   * convert `inputFilename`. `outputFilename` is then the derived output
   * name, and `target` is the stream main uses if the capture file opens
   * (FileProcessor::Initialize, main.cpp:140) and, for a file target, if
   * FileOpen creates the file (main.cpp:149-152).
   */
  datatype Decision =
    | Exit(status: int)
    | Convert(inputFilename: CppString, outputFilename: string, target: OutputTarget)

  /** An output name of "stdout" selects standard output; any other name a file opened under it. */
  function SelectOutput(outputFilename: string): (t: OutputTarget)
    ensures t == StandardOutput <==> outputFilename == StdoutName
    ensures t.OutputFile? ==> t.path == outputFilename
  {
    if outputFilename == StdoutName then StandardOutput else OutputFile(outputFilename)
  }

  /**
   * The branches of main up to the choice of the output stream.
   * `infoRequested` is whether CheckOptionPrintUsage or
   * CheckOptionPrintVersion reported that it handled the command line;
   * `extension` is the capture file extension.
   */
  function Decide(argParser: ArgumentParser, infoRequested: bool, extension: string): (r: Decision)
    ensures r.Convert? <==>
      && !infoRequested
      && !argParser.invalid
      && argParser.GetPositionalArgumentsCount() == 1
      && !(argParser.IsArgumentSet(Output) && argParser.GetArgumentValue(Output) == "")
    ensures r.Exit? ==> r.status == if infoRequested then 0 else -1
    ensures r.Convert? ==>
      && r.inputFilename == argParser.positional[0]
      && r.outputFilename == GetOutputFileName(argParser, r.inputFilename, extension)
      && r.outputFilename != ""
      && r.target == SelectOutput(r.outputFilename)
  {
    if infoRequested then
      Exit(0)
    else if argParser.invalid || argParser.GetPositionalArgumentsCount() != 1 then
      Exit(-1)
    else if argParser.IsArgumentSet(Output) && argParser.GetArgumentValue(Output) == "" then
      Exit(-1)
    else
      var inputFilename := argParser.positional[0];
      var outputFilename := GetOutputFileName(argParser, inputFilename, extension);
      Convert(inputFilename, outputFilename, SelectOutput(outputFilename))
  }

  /**
   * The status main ends with: the status of an early exit (main.cpp:111,
   * 118, 125), or 0 once the checks pass (main.cpp:219), whether or not the
   * capture file could be opened or the output created. It is -1 exactly
   * when usage and version were not handled and a validation check failed.
   */
  function ExitStatus(argParser: ArgumentParser, infoRequested: bool, extension: string): (status: int)
    ensures status == 0 || status == -1
    ensures status == -1 <==>
      && !infoRequested
      && (argParser.invalid
          || argParser.GetPositionalArgumentsCount() != 1
          || (argParser.IsArgumentSet(Output) && argParser.GetArgumentValue(Output) == ""))
  {
    match Decide(argParser, infoRequested, extension)
    case Exit(status) => status
    case Convert(_, _, _) => 0
  }
}
