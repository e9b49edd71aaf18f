/**
 * What one run of `stubs:generate` guarantees, stated over the specification
 * `Resolve` that `Execute` is proved to follow: the fail-fast root check,
 * when the run succeeds, which directories the finder searches, that a run
 * with no usable module warns about every module, and that trailing slashes
 * on the root argument make no difference.
 */
module RunProperties {
  import opened PathText
  import opened ModuleResolution
  import opened Finders
  import opened GenerateStubsCommand

  /**
   * A root without `bitrix/modules` ends the run at once: one error naming
   * the normalised root, exit FAILURE, no file written, and the outcome does
   * not depend on the requested modules or on which module directories exist.
   */
  lemma InvalidRootFailsFast(rootArg: string, requested: seq<string>, dirs: set<string>,
                             files: map<string, string>, generate: SourceSet -> string,
                             otherRequested: seq<string>, otherDirs: set<string>)
    requires ModulesDir(TrimTrailingSlashes(rootArg)) !in dirs
    requires ModulesDir(TrimTrailingSlashes(rootArg)) !in otherDirs
    ensures Resolve(rootArg, requested, dirs) == InvalidRoot(TrimTrailingSlashes(rootArg))
    ensures ExitCode(Resolve(rootArg, requested, dirs)) == FAILURE
    ensures Log(Resolve(rootArg, requested, dirs)) == [InvalidRootError(TrimTrailingSlashes(rootArg))]
    ensures Written(files, Resolve(rootArg, requested, dirs), generate) == files
    ensures Resolve(rootArg, otherRequested, otherDirs) == Resolve(rootArg, requested, dirs)
  {
  }

  /**
   * A run succeeds exactly when the normalised root holds `bitrix/modules`
   * and the directory of at least one effective module exists.
   */
  lemma ResolvedIff(rootArg: string, requested: seq<string>, dirs: set<string>)
    ensures Resolve(rootArg, requested, dirs).Resolved? <==>
      ModulesDir(TrimTrailingSlashes(rootArg)) in dirs &&
      exists m :: m in EffectiveModules(requested) && ModulePath(TrimTrailingSlashes(rootArg), m) in dirs
  {
    var root := TrimTrailingSlashes(rootArg);
    var candidates := Candidates(root, EffectiveModules(requested));
    ExistingEmptyIff(candidates, dirs);
    if ModulesDir(root) in dirs {
      if Existing(candidates, dirs) != [] {
        var p :| p in candidates && p in dirs;
        CandidatesMembership(root, EffectiveModules(requested), p);
      } else {
        forall m | m in EffectiveModules(requested)
          ensures ModulePath(root, m) !in dirs
        {
          CandidatesMembership(root, EffectiveModules(requested), ModulePath(root, m));
        }
      }
    }
  }

  /**
   * The exit code is SUCCESS exactly when the normalised root holds
   * `bitrix/modules` and the directory of at least one effective module
   * exists, and FAILURE otherwise.
   */
  lemma ExitCodeOfRun(rootArg: string, requested: seq<string>, dirs: set<string>)
    ensures var root := TrimTrailingSlashes(rootArg);
      ExitCode(Resolve(rootArg, requested, dirs)) ==
        if ModulesDir(root) in dirs && exists m :: m in EffectiveModules(requested) && ModulePath(root, m) in dirs
        then SUCCESS else FAILURE
  {
    ResolvedIff(rootArg, requested, dirs);
  }

  /**
   * A failed module lookup warns about the path of every effective module,
   * in module order, and exits with FAILURE without writing anything.
   */
  lemma NoValidModulesWarnsAll(rootArg: string, requested: seq<string>, dirs: set<string>,
                               files: map<string, string>, generate: SourceSet -> string)
    requires Resolve(rootArg, requested, dirs).NoValidModules?
    ensures Resolve(rootArg, requested, dirs).missing ==
      Candidates(TrimTrailingSlashes(rootArg), EffectiveModules(requested))
    ensures Log(Resolve(rootArg, requested, dirs)) ==
      Warnings(Candidates(TrimTrailingSlashes(rootArg), EffectiveModules(requested))) + [NoValidModulesError]
    ensures ExitCode(Resolve(rootArg, requested, dirs)) == FAILURE
    ensures Written(files, Resolve(rootArg, requested, dirs), generate) == files
  {
    var candidates := Candidates(TrimTrailingSlashes(rootArg), EffectiveModules(requested));
    NoneKeptAllMissing(candidates, dirs);
  }

  /**
   * On success the finder searches only existing module directories, each the
   * path of an effective module, and at least one; every path warned about is
   * not a directory.
   */
  lemma ResolvedPathsExist(rootArg: string, requested: seq<string>, dirs: set<string>)
    requires Resolve(rootArg, requested, dirs).Resolved?
    ensures Resolve(rootArg, requested, dirs).modulePaths != []
    ensures forall p :: p in Resolve(rootArg, requested, dirs).modulePaths ==>
      p in dirs && exists m :: m in EffectiveModules(requested) && p == ModulePath(TrimTrailingSlashes(rootArg), m)
    ensures forall p :: p in Resolve(rootArg, requested, dirs).missing ==> p !in dirs
  {
    var root := TrimTrailingSlashes(rootArg);
    var candidates := Candidates(root, EffectiveModules(requested));
    var res := Resolve(rootArg, requested, dirs);
    assert res.modulePaths == Existing(candidates, dirs) && res.missing == Missing(candidates, dirs);
    forall p | p in res.modulePaths
      ensures p in dirs && exists m :: m in EffectiveModules(requested) && p == ModulePath(root, m)
    {
      FilterMembership(candidates, dirs, p);
      CandidatesMembership(root, EffectiveModules(requested), p);
    }
    forall p | p in res.missing
      ensures p !in dirs
    {
      FilterMembership(candidates, dirs, p);
    }
  }

  /**
   * On success every effective module is accounted for once: its path is
   * either searched or warned about, and the output file is `stubs.php`
   * directly under the root without trailing slashes.
   */
  lemma ResolvedAccountsForEveryModule(rootArg: string, requested: seq<string>, dirs: set<string>)
    requires Resolve(rootArg, requested, dirs).Resolved?
    ensures |Resolve(rootArg, requested, dirs).modulePaths| + |Resolve(rootArg, requested, dirs).missing| ==
      |EffectiveModules(requested)|
    ensures multiset(Resolve(rootArg, requested, dirs).modulePaths) + multiset(Resolve(rootArg, requested, dirs).missing) ==
      multiset(Candidates(TrimTrailingSlashes(rootArg), EffectiveModules(requested)))
    ensures Resolve(rootArg, requested, dirs).outputFile == TrimTrailingSlashes(rootArg) + "/stubs.php"
  {
    var candidates := Candidates(TrimTrailingSlashes(rootArg), EffectiveModules(requested));
    ExistingMissingPartition(candidates, dirs);
    OutputFileInRoot(TrimTrailingSlashes(rootArg));
  }

  /**
   * When every effective module directory exists, the run succeeds with no
   * warning and the finder searches all of them, in module order.
   */
  lemma AllModulesPresent(rootArg: string, requested: seq<string>, dirs: set<string>)
    requires ModulesDir(TrimTrailingSlashes(rootArg)) in dirs
    requires forall m :: m in EffectiveModules(requested) ==> ModulePath(TrimTrailingSlashes(rootArg), m) in dirs
    ensures Resolve(rootArg, requested, dirs).Resolved?
    ensures Resolve(rootArg, requested, dirs).missing == []
    ensures Resolve(rootArg, requested, dirs).modulePaths ==
      Candidates(TrimTrailingSlashes(rootArg), EffectiveModules(requested))
    ensures Log(Resolve(rootArg, requested, dirs)) == [GeneratedInfo(TrimTrailingSlashes(rootArg) + "/stubs.php")]
  {
    var root := TrimTrailingSlashes(rootArg);
    var modules := EffectiveModules(requested);
    var candidates := Candidates(root, modules);
    forall p | p in candidates
      ensures p in dirs
    {
      CandidatesMembership(root, modules, p);
    }
    ExistingAll(candidates, dirs);
    OutputFileInRoot(root);
    assert Existing(candidates, dirs) != [] by {
      assert modules[0] in modules;
      CandidatesAt(root, modules, 0);
    }
  }

  /** Extra trailing slashes on the root argument change nothing about a run. */
  lemma ResolveIgnoresTrailingSlashes(rootArg: string, tail: string, requested: seq<string>, dirs: set<string>)
    requires AllSlashes(tail)
    ensures Resolve(rootArg + tail, requested, dirs) == Resolve(rootArg, requested, dirs)
  {
    TrimIgnoresAppendedSlashes(rootArg, tail);
  }

  /** Without `--module`, the candidates are the four default module directories, in order. */
  lemma DefaultCandidates(root: string)
    ensures Candidates(root, EffectiveModules([])) ==
      [ModulePath(root, "main"), ModulePath(root, "sale"), ModulePath(root, "catalog"), ModulePath(root, "iblock")]
  {
    var cs := [ModulePath(root, "main"), ModulePath(root, "sale"), ModulePath(root, "catalog"), ModulePath(root, "iblock")];
    forall i | 0 <= i < 4
      ensures Candidates(root, DefaultModules())[i] == cs[i]
    {
      CandidatesAt(root, DefaultModules(), i);
    }
  }

  /**
   * A project that has `main`, `sale` and `iblock` but no `catalog`, run
   * without `--module`: one warning names the catalog directory, and the
   * finder searches the other three in module order.
   */
  lemma DefaultModulesWithoutCatalog(rootArg: string, dirs: set<string>)
    requires ModulesDir(TrimTrailingSlashes(rootArg)) in dirs
    requires ModulePath(TrimTrailingSlashes(rootArg), "main") in dirs
    requires ModulePath(TrimTrailingSlashes(rootArg), "sale") in dirs
    requires ModulePath(TrimTrailingSlashes(rootArg), "catalog") !in dirs
    requires ModulePath(TrimTrailingSlashes(rootArg), "iblock") in dirs
    ensures var root := TrimTrailingSlashes(rootArg);
      Resolve(rootArg, [], dirs) ==
        Resolved([ModulePath(root, "catalog")],
                 [ModulePath(root, "main"), ModulePath(root, "sale"), ModulePath(root, "iblock")],
                 OutputFile(root))
  {
    var root := TrimTrailingSlashes(rootArg);
    var main, sale, catalog, iblock :=
      ModulePath(root, "main"), ModulePath(root, "sale"), ModulePath(root, "catalog"), ModulePath(root, "iblock");
    var cs := [main, sale, catalog, iblock];
    DefaultCandidates(root);
    assert [] + [main] == cs[..1];
    assert cs[..1] + [sale] == cs[..2];
    assert cs[..2] + [catalog] == cs[..3];
    assert cs[..3] + [iblock] == cs;
    FilterSnoc([], main, dirs);
    FilterSnoc(cs[..1], sale, dirs);
    FilterSnoc(cs[..2], catalog, dirs);
    FilterSnoc(cs[..3], iblock, dirs);
  }

  /** The same project given as `/proj/`: the trailing slash is dropped from every path. */
  lemma ProjectWithoutCatalog(dirs: set<string>)
    requires ModulesDir("/proj") in dirs
    requires ModulePath("/proj", "main") in dirs && ModulePath("/proj", "sale") in dirs
    requires ModulePath("/proj", "catalog") !in dirs && ModulePath("/proj", "iblock") in dirs
    ensures Resolve("/proj/", [], dirs).Resolved?
    ensures Resolve("/proj/", [], dirs).outputFile == "/proj/stubs.php"
    ensures Log(Resolve("/proj/", [], dirs)) ==
      [ModuleNotFoundWarning(ModulePath("/proj", "catalog")), GeneratedInfo("/proj/stubs.php")]
  {
    assert TrimTrailingSlashes("/proj/") == "/proj" by {
      assert "/proj/"[..5] == "/proj";
      TrimTrailingSlashesUnique("/proj/", "/proj");
    }
    DefaultModulesWithoutCatalog("/proj/", dirs);
    OutputFileInRoot("/proj");
  }
}
