# Bitrix stubs generator: the `stubs:generate` command

This project models the `stubs:generate` console command of a Bitrix stubs
generator. The command takes a Bitrix project root and an optional list of
modules. It works out which module directories to feed to the stub generator
and writes the generated stubs to `<root>/stubs.php`. One run:

1. drops every trailing `/` from the root argument;
2. stops with an error unless `<root>/bitrix/modules` is a directory;
3. uses the modules `main`, `sale`, `catalog` and `iblock` when none are given;
4. keeps the directory `<root>/bitrix/modules/<module>` of each module that has
   one, in module order, and warns about every other module;
5. stops with an error when no module directory is left;
6. otherwise builds a finder over the kept directories, registers ten excluded
   directories and five excluded paths, runs the generator over it and writes
   the result to `<root>/stubs.php`, then reports success.

The model is in Dafny and has five parts:

- `path_text.dfy`, module `PathText`: the right-trim of `/`.
- `module_resolution.dfy`, module `ModuleResolution`: the default modules, the
  candidate paths, and the order-preserving split into existing and missing
  directories.
- `finder.dfy`, module `Finders`: the finder as an object that records its
  roots and its registered exclusions.
- `generate_stubs_command.dfy`, module `GenerateStubsCommand`: the command.
  - `Resolve` states as a value what a run does.
  - `Execute` is the command body, written as a method with the module loop
    and the two exclusion loops. It is proved to produce exactly the exit
    code, console messages and written files that `Resolve` determines.
- `run_properties.dfy`, module `RunProperties`: what a run guarantees, proved
  in terms of `Resolve`.

Which paths are directories is a parameter `dirs: set<string>`. The files on
disk are a `FileSystem` object with a `files` map. The console is a `Console`
object that collects messages as tagged values. The stub generator is a
parameter `generate` that maps the finder's configuration to the text it
renders. Exit codes are the console framework's `SUCCESS` (0) and `FAILURE`
(1).

## Model

| member | source | states |
|---|---|---|
| ModuleResolution.DefaultModules | src/Command/GenerateStubsCommand.php:38 | no contract: the value `main, sale, catalog, iblock`, in that order |
| ModuleResolution.ModulesDir | src/Command/GenerateStubsCommand.php:31 | no contract: `root + "/bitrix/modules"`, the directory whose presence the root check tests |
| ModuleResolution.ModulePath | src/Command/GenerateStubsCommand.php:43 | no contract: `root + "/bitrix/modules/" + name`, one module's candidate directory; `ModulePathInjective` and `CandidatesAt` state its properties |
| GenerateStubsCommand.DefaultExcludes | src/Command/GenerateStubsCommand.php:58-69 | no contract: the ten excluded directories, in listed order |
| GenerateStubsCommand.ExcludeFiles | src/Command/GenerateStubsCommand.php:75-81 | no contract: the five excluded paths, in listed order |
| GenerateStubsCommand.OutputFile | src/Command/GenerateStubsCommand.php:90 | no contract: `root + "/" + "stubs.php"`; `OutputFileInRoot` states its shape |
| GenerateStubsCommand.Request | src/Command/GenerateStubsCommand.php:56-85 | no contract: the finder's configuration for a run, namely the module directories with the two fixed exclusion lists |
| GenerateStubsCommand.Resolve | src/Command/GenerateStubsCommand.php:29-96 | no contract: the outcome of one run as a value (invalid root, no valid modules, or the kept and missing directories with the output file); `Execute` is proved to follow it and the `RunProperties` lemmas state its properties |
| GenerateStubsCommand.ResolveModules | src/Command/GenerateStubsCommand.php:36-96 | no contract: the outcome once the root check has passed, from the effective modules' candidates split into kept and missing |
| GenerateStubsCommand.Outcome | src/Command/GenerateStubsCommand.php:51-96 | no contract: no valid modules when nothing was kept, otherwise success with the kept directories and `<root>/stubs.php` |
| GenerateStubsCommand.Verdict | src/Command/GenerateStubsCommand.php:32-95 | no contract: the last console message of a run, one of the root error, the no-modules error or the success notice |
| GenerateStubsCommand.Log | src/Command/GenerateStubsCommand.php:32-95 | no contract: every console message of a run, namely the root error alone, or the warnings followed by the no-modules error or the success notice |
| GenerateStubsCommand.ExitCode | src/Command/GenerateStubsCommand.php:33-96 | no contract: SUCCESS for a resolved run, FAILURE otherwise (the returns at :33, :53 and :96); `ExitCodeOfRun` states it in terms of the inputs |
| GenerateStubsCommand.Written | src/Command/GenerateStubsCommand.php:93 | no contract: the files after a run, where on success only the output file is replaced by the generator's text for `Request` |
| PathText.TrimTrailingSlashes | src/Command/GenerateStubsCommand.php:29 | the normalised root is a prefix of the argument, what was cut off is only slashes, and the result does not end in `/` |
| PathText.TrimTrailingSlashesUnique | src/Command/GenerateStubsCommand.php:29 | the normalised root is the only prefix that is followed by slashes only and does not end in `/` |
| PathText.TrimTrailingSlashesIdempotent | src/Command/GenerateStubsCommand.php:29 | normalising an already normalised root changes nothing |
| PathText.TrimIgnoresAppendedSlashes | src/Command/GenerateStubsCommand.php:29 | any run of extra slashes on the argument gives the same root |
| ModuleResolution.EffectiveModules | src/Command/GenerateStubsCommand.php:36-39 | the requested list unchanged when one is given, otherwise exactly `main, sale, catalog, iblock` in that order; never empty |
| ModuleResolution.ModulePathInjective | src/Command/GenerateStubsCommand.php:43 | distinct modules under one root have distinct candidate directories |
| ModuleResolution.Candidates | src/Command/GenerateStubsCommand.php:42-43 | one candidate path per module |
| ModuleResolution.CandidatesAt | src/Command/GenerateStubsCommand.php:42-43 | the i-th candidate is `root + "/bitrix/modules/" + ` the i-th module |
| ModuleResolution.CandidatesMembership | src/Command/GenerateStubsCommand.php:42-43 | a path is a candidate exactly when it is the directory of one of the modules |
| ModuleResolution.Existing | src/Command/GenerateStubsCommand.php:41-49 | the kept directories are never more than the candidates |
| ModuleResolution.Missing | src/Command/GenerateStubsCommand.php:44-47 | the missing directories are never more than the candidates |
| ModuleResolution.FilterMembership | src/Command/GenerateStubsCommand.php:41-49 | a path is kept exactly when it is a candidate and a directory, and missing exactly when it is a candidate and not a directory |
| ModuleResolution.FilterSnoc | src/Command/GenerateStubsCommand.php:44-48 | one more candidate extends exactly one of the kept and missing lists, at its end |
| ModuleResolution.ExistingAppend | src/Command/GenerateStubsCommand.php:41-49 | keeping distributes over concatenation, so kept directories stay in module order |
| ModuleResolution.MissingAppend | src/Command/GenerateStubsCommand.php:41-47 | the same for the missing directories, so warnings come in module order |
| ModuleResolution.ExistingCounts | src/Command/GenerateStubsCommand.php:41-49 | each directory is kept as often as it occurs among the candidates, so duplicates are not removed; a non-directory is missing as often as it occurs |
| ModuleResolution.ExistingMissingPartition | src/Command/GenerateStubsCommand.php:41-49 | kept and missing together are the candidates: lengths add up and the multisets are equal |
| ModuleResolution.ExistingEmptyIff | src/Command/GenerateStubsCommand.php:41-54 | nothing is kept exactly when no candidate is a directory |
| ModuleResolution.ExistingAll | src/Command/GenerateStubsCommand.php:41-49 | when every candidate is a directory, all are kept in order and none is missing |
| ModuleResolution.NoneKeptAllMissing | src/Command/GenerateStubsCommand.php:41-54 | when nothing is kept, every candidate is missing, in order |
| Finders.Finder.Create | src/Command/GenerateStubsCommand.php:56 | a new finder searches exactly the given roots and has no exclusions |
| Finders.Finder.Exclude | src/Command/GenerateStubsCommand.php:71-73 | registers one excluded directory after the earlier ones and changes nothing else |
| Finders.Finder.NotPath | src/Command/GenerateStubsCommand.php:83-85 | registers one excluded path after the earlier ones and changes nothing else |
| RunProperties.ExitCodeOfRun | src/Command/GenerateStubsCommand.php:31-96 | the exit code is SUCCESS exactly when the normalised root holds `bitrix/modules` and the directory of at least one effective module exists, FAILURE otherwise |
| GenerateStubsCommand.Warnings | src/Command/GenerateStubsCommand.php:44-47 | exactly one warning per missing module directory |
| GenerateStubsCommand.WarningsAt | src/Command/GenerateStubsCommand.php:44-47 | the i-th warning names the i-th missing directory |
| GenerateStubsCommand.WarningsSnoc | src/Command/GenerateStubsCommand.php:44-47 | one more missing directory adds its warning at the end |
| GenerateStubsCommand.OutputFileInRoot | src/Command/GenerateStubsCommand.php:90 | the output file is `root + "/stubs.php"`, inside the root |
| GenerateStubsCommand.Console.WriteLn | src/Command/GenerateStubsCommand.php:32-95 | appends one message after the earlier ones |
| GenerateStubsCommand.FileSystem.PutContents | src/Command/GenerateStubsCommand.php:93 | the file at the path holds exactly the given text afterwards and every other file is unchanged |
| GenerateStubsCommand.CollectModulePaths | src/Command/GenerateStubsCommand.php:41-49 | the loop keeps exactly the existing candidate directories, in order, and writes exactly one warning per missing candidate, in order |
| GenerateStubsCommand.CreateFinder | src/Command/GenerateStubsCommand.php:56-85 | the new finder searches exactly the module directories, with the directory and path exclusions registered in listed order |
| GenerateStubsCommand.GenerateAndWrite | src/Command/GenerateStubsCommand.php:56-96 | the output file holds exactly the generator's text for the finder with the ten directory and five path exclusions, other files are unchanged, and one success message follows |
| GenerateStubsCommand.Finish | src/Command/GenerateStubsCommand.php:51-96 | with no module directory, one error, FAILURE and no write; otherwise generation, the write and SUCCESS |
| GenerateStubsCommand.ExecuteModules | src/Command/GenerateStubsCommand.php:36-96 | after a valid root, the exit code, the console messages and the written files are exactly those of `ResolveModules` |
| GenerateStubsCommand.Execute | src/Command/GenerateStubsCommand.php:27-97 | the exit code, the console messages and the written files are exactly those `Resolve` determines for the root argument, the modules and the existing directories |
| RunProperties.InvalidRootFailsFast | src/Command/GenerateStubsCommand.php:29-34 | without `bitrix/modules` under the normalised root, one error naming that root, FAILURE and no file written, whatever modules were requested and whatever module directories exist |
| RunProperties.ResolvedIff | src/Command/GenerateStubsCommand.php:31-54 | a run succeeds exactly when the root holds `bitrix/modules` and the directory of at least one effective module exists |
| RunProperties.NoValidModulesWarnsAll | src/Command/GenerateStubsCommand.php:41-54 | when no module directory exists, the console gets exactly one warning per effective module's directory, in order, followed by the error; FAILURE and no write |
| RunProperties.ResolvedPathsExist | src/Command/GenerateStubsCommand.php:41-56 | on success the finder searches a non-empty list of existing directories, each that of an effective module, and every warned path is not a directory |
| RunProperties.ResolvedAccountsForEveryModule | src/Command/GenerateStubsCommand.php:41-90 | on success every effective module is either searched or warned about, as a multiset of candidate paths, and the output is `<root>/stubs.php` |
| RunProperties.AllModulesPresent | src/Command/GenerateStubsCommand.php:41-96 | when every effective module directory exists, the finder searches all of them in order, with no warning and only the success message |
| RunProperties.ResolveIgnoresTrailingSlashes | src/Command/GenerateStubsCommand.php:29 | extra trailing slashes on the root argument change nothing about a run |
| RunProperties.DefaultCandidates | src/Command/GenerateStubsCommand.php:36-43 | without `--module`, the candidates are the `main`, `sale`, `catalog` and `iblock` directories, in that order |
| RunProperties.DefaultModulesWithoutCatalog | src/Command/GenerateStubsCommand.php:36-96 | a project without `catalog`: one warning for it, and the finder searches `main`, `sale` and `iblock` in that order |
| RunProperties.ProjectWithoutCatalog | src/Command/GenerateStubsCommand.php:29-96 | the same project given as `/proj/`: the warning for the catalog directory, then success with `/proj/stubs.php` |

## Left out

- Argument and option parsing and the command's registration (src/Command/GenerateStubsCommand.php:13-25). The root argument and the module list arrive as values.
- The console markup and the wording of messages (:32, :45, :52, :95). Messages are tagged values carrying the path or root they name.
- Real filesystem access. `is_dir` becomes the `dirs` parameter, and `file_put_contents` becomes `FileSystem.PutContents` on a map from path to text.
- The code ignores the result of `file_put_contents` (:93) and always reports success afterwards. So the model has no write-failure outcome.
- How the finder library matches `exclude` and `notPath` rules against files (:72, :84). That library is not part of this model, so the finder only records its roots and exclusions in order. The matching semantics of these rules are not stated.
- `StubsGenerator::generate` and `prettyPrint` (:87-93) are not part of this model. They are the `generate` parameter, and its text is written verbatim. Exceptions the generator might throw are not modelled.
- PHP strings are bytes, while a Dafny `string` is a sequence of Unicode characters. The command only trims `/` and concatenates, so nothing is lost for UTF-8 paths. A root argument or module name that is not valid UTF-8 cannot be represented.
- Races between the directory checks and the later directory walk or write, which the code does not handle.
