/**
 * The `stubs:generate` console command: normalise the project root, check
 * that it holds `bitrix/modules`, resolve the requested (or default) modules
 * to existing directories, configure the finder with the fixed exclusions,
 * run the generator and write its text to `<root>/stubs.php`.
 *
 * `Resolve` is the specification of one run as a value; `Execute` is the
 * command's step-by-step body, proved to behave as `Resolve` says.
 */
module GenerateStubsCommand {
  import opened PathText
  import opened ModuleResolution
  import opened Finders

  /** Exit codes of a console command (`Command::SUCCESS`, `Command::FAILURE`). */
  const SUCCESS: int := 0
  const FAILURE: int := 1

  /** Directories registered with the finder's `exclude`, in this order. */
  function DefaultExcludes(): seq<string> {
    [
      "seo/lib/businesssuite/services/",
      "rest/lib/configuration/dataprovider/http/",
      "sender/lib/integration/crm/timeline",
      "disk/lib/copy/integration",
      "vendor/",
      "catalog/lib/integration/report/filter/",
      "catalog/lib/integration/report/view/",
      "catalog/lib/integration/report/handler/",
      "catalog/lib/v2/Tests/",
      "call/lib/Integration/AI/Task"
    ]
  }

  /** Paths registered with the finder's `notPath`, in this order. */
  function ExcludeFiles(): seq<string> {
    [
      "disk/lib/integration/transformermanager.php",
      "disk/lib/integration/bizproc/result.php",
      "disk/lib/integration/bizproc/error.php",
      "security/lib/xscanresulttable.php",
      "security/meta/orm.php"
    ]
  }

  /** What the finder handed to the generator describes: the module directories and the fixed exclusions. */
  function Request(modulePaths: seq<string>): SourceSet {
    SourceSet(modulePaths, DefaultExcludes(), ExcludeFiles())
  }

  /** Where the generated stubs are written. */
  function OutputFile(root: string): string {
    root + "/" + "stubs.php"
  }

  /** Console output, as tagged values carrying the path they name. */
  datatype Message =
    | InvalidRootError(root: string)
    | ModuleNotFoundWarning(path: string)
    | NoValidModulesError
    | GeneratedInfo(outputFile: string)

  /** The outcome of resolving a run's inputs against the existing directories. */
  datatype Resolution =
    | InvalidRoot(root: string)
    | NoValidModules(missing: seq<string>)
    | Resolved(missing: seq<string>, modulePaths: seq<string>, outputFile: string)

  /** What one run does, given the root argument, the `--module` values and the directories that exist. */
  function Resolve(rootArg: string, requested: seq<string>, dirs: set<string>): Resolution {
    var root := TrimTrailingSlashes(rootArg);
    if ModulesDir(root) !in dirs then InvalidRoot(root)
    else ResolveModules(root, requested, dirs)
  }

  /** The rest of a run once the (normalised) root holds `bitrix/modules`. */
  function ResolveModules(root: string, requested: seq<string>, dirs: set<string>): Resolution {
    var candidates := Candidates(root, EffectiveModules(requested));
    Outcome(root, Existing(candidates, dirs), Missing(candidates, dirs))
  }

  /** The verdict once the module directories are split into found and missing ones. */
  function Outcome(root: string, found: seq<string>, missing: seq<string>): Resolution {
    if found == [] then NoValidModules(missing)
    else Resolved(missing, found, OutputFile(root))
  }

  /** The command's exit code for a resolution. */
  function ExitCode(res: Resolution): int {
    if res.Resolved? then SUCCESS else FAILURE
  }

  /** One warning per missing module directory, in the same order. */
  function Warnings(missing: seq<string>): (ws: seq<Message>)
    ensures |ws| == |missing|
  {
    if missing == [] then []
    else Warnings(missing[..|missing| - 1]) + [ModuleNotFoundWarning(missing[|missing| - 1])]
  }

  /** The i-th warning names the i-th missing path. */
  lemma {:induction false} WarningsAt(missing: seq<string>, i: nat)
    requires i < |missing|
    ensures Warnings(missing)[i] == ModuleNotFoundWarning(missing[i])
  {
    if i < |missing| - 1 {
      WarningsAt(missing[..|missing| - 1], i);
    }
  }

  /** One more missing directory adds one warning at the end. */
  lemma WarningsSnoc(missing: seq<string>, path: string)
    ensures Warnings(missing + [path]) == Warnings(missing) + [ModuleNotFoundWarning(path)]
  {
    assert (missing + [path])[..|missing|] == missing;
  }

  /** The output file is `stubs.php` directly inside the root. */
  lemma OutputFileInRoot(root: string)
    ensures OutputFile(root) == root + "/stubs.php"
    ensures OutputFile(root)[..|root|] == root
  {
    assert "/" + "stubs.php" == "/stubs.php";
    AppendAssoc(root, "/", "stubs.php");
  }

  /** The last message of a run: its error or its success notice. */
  function Verdict(res: Resolution): Message {
    match res
    case InvalidRoot(root) => InvalidRootError(root)
    case NoValidModules(_) => NoValidModulesError
    case Resolved(_, _, out) => GeneratedInfo(out)
  }

  /** Everything a run writes to the console. */
  function Log(res: Resolution): seq<Message> {
    match res
    case InvalidRoot(root) => [InvalidRootError(root)]
    case NoValidModules(missing) => Warnings(missing) + [NoValidModulesError]
    case Resolved(missing, _, out) => Warnings(missing) + [GeneratedInfo(out)]
  }

  /** The written files after a run: the output file holds the generated text exactly, on success only. */
  function Written(files: map<string, string>, res: Resolution, generate: SourceSet -> string): map<string, string> {
    if res.Resolved? then files[res.outputFile := generate(Request(res.modulePaths))] else files
  }

  /** The console the command writes its messages to. */
  class Console {
    var lines: seq<Message>

    constructor ()
      ensures lines == []
    {
      lines := [];
    }

    method WriteLn(m: Message)
      modifies this
      ensures lines == old(lines) + [m]
    {
      lines := lines + [m];
    }
  }

  /** The files the command writes to, by path. */
  class FileSystem {
    var files: map<string, string>

    constructor (files: map<string, string>)
      ensures this.files == files
    {
      this.files := files;
    }

    /** Replaces the whole content of the file at `path`. */
    method PutContents(path: string, data: string)
      modifies this
      ensures files == old(files)[path := data]
    {
      files := files[path := data];
    }
  }

  /**
   * The module loop of the command: the candidate path of each module, kept
   * when it is a directory and reported with a warning otherwise.
   */
  method CollectModulePaths(root: string, modules: seq<string>, dirs: set<string>, console: Console)
    returns (modulePaths: seq<string>)
    modifies console
    ensures modulePaths == Existing(Candidates(root, modules), dirs)
    ensures console.lines == old(console.lines) + Warnings(Missing(Candidates(root, modules), dirs))
  {
    modulePaths := [];
    ghost var candidates := Candidates(root, modules);
    ghost var missing: seq<string> := [];
    for i := 0 to |modules|
      invariant modulePaths == Existing(candidates[..i], dirs)
      invariant missing == Missing(candidates[..i], dirs)
      invariant console.lines == old(console.lines) + Warnings(missing)
    {
      var path := ModulePath(root, modules[i]);
      assert Existing(candidates[..i + 1], dirs) == modulePaths + (if path in dirs then [path] else [])
          && Missing(candidates[..i + 1], dirs) == missing + (if path in dirs then [] else [path]) by {
        CandidatesAt(root, modules, i);
        assert candidates[..i + 1] == candidates[..i] + [path];
        FilterSnoc(candidates[..i], path, dirs);
      }
      if path !in dirs {
        console.WriteLn(ModuleNotFoundWarning(path));
        assert Warnings(missing + [path]) == Warnings(missing) + [ModuleNotFoundWarning(path)] by {
          WarningsSnoc(missing, path);
        }
        missing := missing + [path];
        continue;
      }
      modulePaths := modulePaths + [path];
    }
    assert candidates[..|modules|] == candidates;
  }

  /**
   * The finder over `modulePaths` with each directory of `dirExcludes` and
   * each path of `pathExcludes` registered, in listed order.
   */
  method CreateFinder(modulePaths: seq<string>, dirExcludes: seq<string>, pathExcludes: seq<string>)
    returns (finder: Finder)
    ensures fresh(finder)
    ensures finder.Query() == SourceSet(modulePaths, dirExcludes, pathExcludes)
  {
    finder := new Finder.Create(modulePaths);

    for i := 0 to |dirExcludes|
      modifies finder
      invariant finder.Query() == SourceSet(modulePaths, dirExcludes[..i], [])
    {
      assert dirExcludes[..i + 1] == dirExcludes[..i] + [dirExcludes[i]];
      finder.Exclude(dirExcludes[i]);
    }
    assert dirExcludes[..|dirExcludes|] == dirExcludes;

    for i := 0 to |pathExcludes|
      modifies finder
      invariant finder.Query() == SourceSet(modulePaths, dirExcludes, pathExcludes[..i])
    {
      assert pathExcludes[..i + 1] == pathExcludes[..i] + [pathExcludes[i]];
      finder.NotPath(pathExcludes[i]);
    }
    assert pathExcludes[..|pathExcludes|] == pathExcludes;
  }

  /**
   * One run of `stubs:generate`. The generator is the parameter `generate`:
   * it maps the finder's request to the rendered stubs text.
   */
  method Execute(rootArg: string, requested: seq<string>, dirs: set<string>,
                 fs: FileSystem, console: Console, generate: SourceSet -> string) returns (code: int)
    modifies fs, console
    ensures code == ExitCode(Resolve(rootArg, requested, dirs))
    ensures console.lines == old(console.lines) + Log(Resolve(rootArg, requested, dirs))
    ensures fs.files == Written(old(fs.files), Resolve(rootArg, requested, dirs), generate)
  {
    var root := TrimTrailingSlashes(rootArg);

    if ModulesDir(root) !in dirs {
      console.WriteLn(InvalidRootError(root));
      return FAILURE;
    }

    code := ExecuteModules(root, requested, dirs, fs, console, generate);
  }

  /** The part of a run after the root check: module resolution, then generation or failure. */
  method ExecuteModules(root: string, requested: seq<string>, dirs: set<string>,
                        fs: FileSystem, console: Console, generate: SourceSet -> string) returns (code: int)
    modifies fs, console
    ensures code == ExitCode(ResolveModules(root, requested, dirs))
    ensures console.lines == old(console.lines) + Log(ResolveModules(root, requested, dirs))
    ensures fs.files == Written(old(fs.files), ResolveModules(root, requested, dirs), generate)
  {
    var modules := requested;
    if |modules| == 0 {
      modules := DefaultModules();
    }
    assert modules == EffectiveModules(requested);

    ghost var start := console.lines;
    ghost var missing := Missing(Candidates(root, modules), dirs);
    var modulePaths := CollectModulePaths(root, modules, dirs, console);
    ghost var res := Outcome(root, modulePaths, missing);
    assert ResolveModules(root, requested, dirs) == res;
    code := Finish(root, modulePaths, missing, fs, console, generate);
    OutcomeLog(root, modulePaths, missing);
    AppendAssoc(start, Warnings(missing), [Verdict(res)]);
  }

  /**
   * The end of a run whose module loop kept `modulePaths` and warned about
   * `missing`: the error when nothing was kept, generation otherwise.
   */
  method Finish(root: string, modulePaths: seq<string>, ghost missing: seq<string>,
                fs: FileSystem, console: Console, generate: SourceSet -> string) returns (code: int)
    modifies fs, console
    ensures code == ExitCode(Outcome(root, modulePaths, missing))
    ensures console.lines == old(console.lines) + [Verdict(Outcome(root, modulePaths, missing))]
    ensures fs.files == Written(old(fs.files), Outcome(root, modulePaths, missing), generate)
  {
    if |modulePaths| == 0 {
      console.WriteLn(NoValidModulesError);
      return FAILURE;
    }
    GenerateAndWrite(root, modulePaths, fs, console, generate);
    return SUCCESS;
  }

  /**
   * The tail of a successful run: the finder over the module paths with the
   * fixed exclusions, the generator's text written to `<root>/stubs.php`
   * (whatever the file held before), and the success message.
   */
  method GenerateAndWrite(root: string, modulePaths: seq<string>, fs: FileSystem, console: Console,
                          generate: SourceSet -> string)
    modifies fs, console
    ensures fs.files == old(fs.files)[OutputFile(root) := generate(Request(modulePaths))]
    ensures console.lines == old(console.lines) + [GeneratedInfo(OutputFile(root))]
  {
    var finder := CreateFinder(modulePaths, DefaultExcludes(), ExcludeFiles());

    var text := generate(finder.Query());

    var outputFile := OutputFile(root);

    fs.PutContents(outputFile, text);

    console.WriteLn(GeneratedInfo(outputFile));
  }

  /** After a valid root, the log is the module warnings followed by the verdict. */
  lemma OutcomeLog(root: string, found: seq<string>, missing: seq<string>)
    ensures Log(Outcome(root, found, missing)) == Warnings(missing) + [Verdict(Outcome(root, found, missing))]
  {
  }

  /** Proof aid: regrouping a concatenation of three sequences. */
  lemma AppendAssoc<T>(a: seq<T>, b: seq<T>, c: seq<T>)
    ensures a + b + c == a + (b + c)
  {
  }
}
