# GFXReconstruct page tracker and convert-tool decisions, in Dafny

This project models two small pieces of GFXReconstruct, the graphics-API
capture and replay framework, and proves what they promise.

- **PageStatusTracker** (`util/page_status_tracker.h`) is the per-page flag store
  behind page-guard memory tracking. A tracker over `page_count` pages holds three
  byte vectors: pages written since the last checkpoint, pages read since the last
  checkpoint, and pages loaded before. It has a getter and a setter per vector.
  It is modelled in `page_status_tracker.dfy`, module `PageTracking`. The class `PageStatusTracker` keeps the three vectors in three
  constant arrays of a `uint8` newtype and updates them in place. Each method is
  proved against the value-level datatype `PageStatus`. `State()` maps the arrays
  to a `PageStatus`; each setter ensures `State() == old(State()).SetX(index, value)`
  and modifies only its own array. The lemmas about `PageStatus` state what the
  source promises: all flags start clear, a set flag reads back, nothing else
  changes, bytes stay in {0, 1} and the three lengths stay equal.
- **The convert tool** (`tools/convert/main.cpp`) turns a capture file into JSON
  Lines. Three pieces of it are modelled, in module `ConvertTool`
  (`convert_main.dfy`). The first is the application name that `PrintUsage`
  derives from `argv[0]`. The second is the output file name that
  `GetOutputFileName` derives. The third is the argument checks of `main`, which
  decide between exiting and converting. For a conversion they also fix the
  output stream main uses if the capture file opens: standard output or a file.
  The `std::string` operations they rely on are in module `StdString`
  (`std_string.dfy`): `find`, `find_last_of`, `substr` and `replace`. That module
  uses a 64-bit `size_t` and the `npos` sentinel.

Modelling choices:

- `GFXRECON_FILE_EXTENSION` is defined outside the modelled files. It is a
  parameter `extension` of `GetOutputFileName` and `Decide`, so every property
  holds for any value of it. `std::string::find` of an empty pattern returns 0,
  and the model keeps that behaviour, so no precondition on the extension is
  needed.
- A `std::string` is a `CppString`, a string shorter than `npos`, because
  `max_size()` is below `npos`. Each `char` of a `CppString` stands for one
  byte of the `std::string`, not a decoded character. The source works on
  bytes, so `Find`, `FindLastOf` and `Substr` are exact for any encoding. That
  includes multi-byte encodings such as Shift-JIS, where the byte 0x5C (`\`)
  can be the second byte of a two-byte character. Positions and counts passed to and returned by these operations are `SizeT`, values below 2^64. In
  `PrintUsage`, `npos + 1` wraps to 0; the model computes it as
  `(dirLocation + 1) % 2^64`.
- The class `gfxrecon::util::ArgumentParser` is defined outside the modelled files.
  It is an abstract record: the options present, the value arguments with their
  values, the positional arguments, and whether parsing failed.
  `GetArgumentValue` requires that the argument is set, because every caller
  in `main.cpp` checks this first.
- `CheckOptionPrintUsage` and `CheckOptionPrintVersion` are defined outside the
  modelled files. Whether either of them handled the command line is the
  parameter `infoRequested` of `Decide`.
- The usage text (`main.cpp:60-62`) says the default output is the input path
  with "gfxr" replaced by "jsonl". The code cuts the input at the first
  occurrence of the extension, drops everything after it, and appends ".jsonl".
  The model follows the code. The two agree when the extension occurs only at
  the end: `cap.gfxr` becomes `cap.jsonl`. They differ elsewhere, with the
  extension `.gfxr`:
  - `a.gfxr.bak` becomes `a.jsonl`;
  - `x.bin` becomes `x.bin.jsonl`;
  - `d.gfxr/t.gfxr` becomes `d.jsonl`.

  Four example lemmas prove these cases.
- `kOutput` is defined outside the modelled files. The model takes it to be
  `"--output"`, the name that `kArguments` (`main.cpp:36`) lists.
- `main` calls `exit(-1)`. The model records the status as -1, as the source
  writes it; the process status the host reports is not modelled.

## Model

| member | source | states |
|---|---|---|
| `PageTracking.FlagByte` | util/page_status_tracker.h:42-44 | the stored byte is 0 or 1, and it is 1 exactly when the flag is true |
| `PageTracking.PageStatus.Create` | util/page_status_tracker.h:32-34 | after construction with K pages, the three vectors have length K, every byte is 0 or 1, and every getter reports false for every index below K |
| `PageTracking.PageStatus.SetActiveWriteBlock` | util/page_status_tracker.h:42 | the write getter then returns the value set; the write vector keeps its length and every other entry; the read and loaded vectors are unchanged; validity is preserved |
| `PageTracking.PageStatus.SetActiveReadBlock` | util/page_status_tracker.h:43 | the read getter then returns the value set; only `active_reads_[index]` changes; validity is preserved |
| `PageTracking.PageStatus.SetBlockLoaded` | util/page_status_tracker.h:44 | the loaded getter then returns the value set; only `page_loaded_[index]` changes; validity is preserved |
| `PageTracking.SetTwiceIsSetOnce` | util/page_status_tracker.h:42-44 | setting any of the three flags twice to the same value gives the same state as setting it once |
| `PageTracking.SetToCurrentIsNoOp` | util/page_status_tracker.h:38-44 | setting a flag to the value its getter reports leaves the whole state unchanged; this holds because every byte is 0 or 1 |
| `PageTracking.SetWriteLeavesOtherQueries` | util/page_status_tracker.h:42 | after setting page P's write flag, P's read and loaded flags and every flag of every other page read as before |
| `PageTracking.SetReadLeavesOtherQueries` | util/page_status_tracker.h:43 | after setting page P's read flag, P's write and loaded flags and every flag of every other page read as before |
| `PageTracking.SetLoadedLeavesOtherQueries` | util/page_status_tracker.h:44 | after setting page P's loaded flag, P's write and read flags and every flag of every other page read as before |
| `PageTracking.SettersOfDifferentFlagsCommute` | util/page_status_tracker.h:42-44 | setters of two different flags commute, at any pair of pages |
| `PageTracking.PageStatusTracker.constructor` | util/page_status_tracker.h:32-34 | three fresh, distinct vectors of length `page_count`, all zero; the state equals `PageStatus.Create(page_count)` |
| `PageTracking.PageStatusTracker.IsActiveWriteBlock` | util/page_status_tracker.h:38 | for an index below the page count, returns whether the stored write byte equals 1 |
| `PageTracking.PageStatusTracker.IsActiveReadBlock` | util/page_status_tracker.h:39 | for an index below the page count, returns whether the stored read byte equals 1 |
| `PageTracking.PageStatusTracker.IsBlockLoaded` | util/page_status_tracker.h:40 | for an index below the page count, returns whether the stored loaded byte equals 1 |
| `PageTracking.PageStatusTracker.SetActiveWriteBlock` | util/page_status_tracker.h:42 | modifies only the write array; the new state is the old one with `active_writes_[index] = value ? 1 : 0`; the tracker stays valid, with equal lengths and bytes in {0, 1} |
| `PageTracking.PageStatusTracker.SetActiveReadBlock` | util/page_status_tracker.h:43 | modifies only the read array; the new state is the old one with `active_reads_[index] = value ? 1 : 0`; the tracker stays valid |
| `PageTracking.PageStatusTracker.SetBlockLoaded` | util/page_status_tracker.h:44 | modifies only the loaded array; the new state is the old one with `page_loaded_[index] = value ? 1 : 0`; the tracker stays valid |
| `PageTracking.TrackerUsage` | util/page_status_tracker.h:32-44 | a client of the class alone: on a new tracker, a write flag set on page P reads back true, while P's read flag and page P+1's write flag read false |
| `StdString.Find` | tools/convert/main.cpp:90 | `find` returns npos or a position at or after `pos` where the pattern occurs, and the pattern occurs at no earlier position from `pos` on |
| `StdString.LastOfBefore` | tools/convert/main.cpp:45 | returns npos or the last position below n holding one of the characters; no later position below n holds one |
| `StdString.FindLastOf` | tools/convert/main.cpp:45 | `find_last_of` returns npos or a position holding one of the characters, and no later position holds one; npos means none does |
| `StdString.Substr` | tools/convert/main.cpp:93 | `substr(pos, count)` is the run of text starting at `pos`, at most `count` long, stopping short only at the end of the string |
| `StdString.Replace` | tools/convert/main.cpp:48 | `replace(pos, count, str)` keeps the text before `pos`, puts `str` at `pos`, and follows it with the text after the removed part. The removed part is `count` long, cut short at the end of the string; the length changes by `|str|` minus the removed length |
| `ConvertTool.BasenameIsSuffixAfterLastSeparator` | tools/convert/main.cpp:44-49 | the base name (the reference definition `Basename`, scanning from the end) is a suffix of the path, holds no '/' or '\', and is either the whole path or preceded by a separator |
| `ConvertTool.BasenameWithoutSeparator` | tools/convert/main.cpp:45-49 | a path with no separator is its own base name |
| `ConvertTool.BasenameOfPrefix` | tools/convert/main.cpp:45-48 | the base name of any prefix is the text after the last separator that `find_last_of` finds in that prefix, or the whole prefix when it finds none |
| `ConvertTool.PrintUsageAppName` | tools/convert/main.cpp:44-49 | the name shown in the usage text is the base name of `argv[0]`; with no separator it is `argv[0]` unchanged, because `npos + 1` wraps to 0 |
| `ConvertTool.GetOutputFileName` | tools/convert/main.cpp:80-98 | with `--output` set, returns its value verbatim whatever the input name; without it, the result ends with ".jsonl" |
| `ConvertTool.OutputNameCutsAtFirstExtension` | tools/convert/main.cpp:89-95 | with no `--output` and an input that contains the extension, the result is the input before the extension's first occurrence followed by ".jsonl"; text after the extension is dropped |
| `ConvertTool.OutputNameWithoutExtension` | tools/convert/main.cpp:89-95 | with no `--output` and an input that does not contain the extension, the result is the whole input followed by ".jsonl" |
| `ConvertTool.DefaultOutputNameOfPlainCapture` | tools/convert/main.cpp:89-95 | with no `--output` and extension ".gfxr", `cap.gfxr` becomes `cap.jsonl`, which agrees with the usage text at lines 60-62 |
| `ConvertTool.DefaultOutputNameDropsTextAfterExtension` | tools/convert/main.cpp:89-95 | with no `--output` and extension ".gfxr", `a.gfxr.bak` becomes `a.jsonl`: the text after the first occurrence is dropped |
| `ConvertTool.DefaultOutputNameWithoutExtension` | tools/convert/main.cpp:89-95 | with no `--output` and extension ".gfxr", `x.bin` becomes `x.bin.jsonl` |
| `ConvertTool.DefaultOutputNameCutsInDirectory` | tools/convert/main.cpp:89-95 | with no `--output` and extension ".gfxr", `d.gfxr/t.gfxr` becomes `d.jsonl`: an occurrence in a directory name cuts there |
| `ConvertTool.SelectOutput` | tools/convert/main.cpp:143-150 | an output name equal to "stdout" selects standard output; any other name selects a file opened under that name |
| `ConvertTool.Decide` | tools/convert/main.cpp:108-137 | conversion starts exactly when usage and version were not handled, the parser is valid, there is exactly one positional argument, and `--output` is not set to "". Otherwise the exit status is 0 for usage or version and -1 for a failed check. A conversion takes the positional argument as its input and `GetOutputFileName`'s result, which is never empty, as its output name. Its target is the stream main would use if the capture file opens: stdout when that name is "stdout", otherwise a file of that name |
| `ConvertTool.ExitStatus` | tools/convert/main.cpp:108-219 | main ends with status 0 or -1. It is -1 exactly when usage and version were not handled and a check failed: the parser is invalid, the positional count is not 1, or `--output` is set to "". Every run that passes the checks returns 0 (line 219), whether or not the capture file opens |

## Left out

- `format/vulkan_consumer_base.h`: an interface whose methods do nothing by default or are pure virtual, so it has no behaviour to state. Its parameter decoder types are not part of this model.
- The decode pipeline, the parameter decoders and the consumers are not part of this model. Their implementations are not among the modelled files.
- `PrintUsage` console output, `GFXRECON_LOG_ERROR`, `Log::Init` and `Log::Release` are left out. They are console and log I/O.
- `FileProcessor::Initialize`, `ProcessAllFrames`, `FileOpen` and `FileClose` are left out. They are file I/O in library code outside the modelled files. `ExitStatus` records only that main returns 0 on every path after the checks, whether or not these calls succeed.
- `Decide`'s output target depends on two calls it does not model. It is used only if `FileProcessor::Initialize` opens the capture file (line 140). For a file target, `FileOpen` must also create the file (lines 149-152). If `Initialize` fails, main selects no output and writes nothing. If `FileOpen` fails, main logs an error (line 214) and writes nothing. Both paths still return 0.
- Consumer and decoder construction, `AddConsumer` and `AddDecoder` are left out; they are wiring of unseen classes.
- `GetVulkanReplayOptions`, `GetDxReplayOptions`, the `--json-object` flag and the Vulkan version string are left out. They only configure the left-out consumers.
- The Windows-only `--api` argument and the `_set_abort_behavior` call for `--no-debug-popup` are left out. They are platform plumbing.
- `CheckOptionPrintUsage`, `CheckOptionPrintVersion` and `ArgumentParser` are defined outside the modelled files. They enter the model only as the `infoRequested` flag and the parser record.
- `StringCompare` on line 143 is taken to be exact string equality. Its definition is not part of this model.
- Concurrency around the tracker is left out. Writers in fault handlers can race with a checkpoint reader, but the class has no locking, so there is nothing in it to model.
- The tracker's `size_t` indices and `page_count` are unbounded `nat`s. An index is always below the length of an allocated vector, so no value near 2^64 can occur.
- `PageStatusTracker.constructor` always succeeds. The source's `std::vector<uint8_t>(page_count, 0)` (`util/page_status_tracker.h:33`) throws `std::length_error` when `page_count` exceeds `max_size()`, and `std::bad_alloc` when memory runs out. Allocation failure is not modelled.
