/**
 * Which module directories of a Bitrix project the stubs command feeds to the
 * generator: the default module list, the candidate path of each module under
 * `<root>/bitrix/modules`, and the order-preserving split of the candidates
 * into existing directories and missing ones.
 */
module ModuleResolution {

  /** The modules used when no `--module` option is given. */
  function DefaultModules(): seq<string> {
    ["main", "sale", "catalog", "iblock"]
  }

  /** The directory whose presence marks a valid project root. */
  function ModulesDir(root: string): string {
    root + "/bitrix/modules"
  }

  /** The candidate directory of one module. */
  function ModulePath(root: string, name: string): (p: string)
  {
    root + "/bitrix/modules/" + name
  }

  /** Distinct module names under one root give distinct candidate paths. */
  lemma ModulePathInjective(root: string, a: string, b: string)
    requires ModulePath(root, a) == ModulePath(root, b)
    ensures a == b
  {
    var prefix := root + "/bitrix/modules/";
    assert ModulePath(root, a)[|prefix|..] == a;
    assert ModulePath(root, b)[|prefix|..] == b;
  }

  /** The option value when one was given, the default list otherwise. */
  function EffectiveModules(requested: seq<string>): (ms: seq<string>)
    ensures |ms| > 0
    ensures requested != [] ==> ms == requested
    ensures requested == [] ==> ms == ["main", "sale", "catalog", "iblock"]
  {
    if |requested| == 0 then DefaultModules() else requested
  }

  /** The candidate path of every module, in module order. */
  function Candidates(root: string, modules: seq<string>): (cs: seq<string>)
    ensures |cs| == |modules|
  {
    if modules == [] then []
    else Candidates(root, modules[..|modules| - 1]) + [ModulePath(root, modules[|modules| - 1])]
  }

  /** The i-th candidate is the path of the i-th module. */
  lemma {:induction false} CandidatesAt(root: string, modules: seq<string>, i: nat)
    requires i < |modules|
    ensures Candidates(root, modules)[i] == ModulePath(root, modules[i])
  {
    if i < |modules| - 1 {
      CandidatesAt(root, modules[..|modules| - 1], i);
    }
  }

  /** A path is a candidate exactly when it is the path of one of the modules. */
  lemma {:induction false} CandidatesMembership(root: string, modules: seq<string>, p: string)
    ensures p in Candidates(root, modules) <==> exists m :: m in modules && p == ModulePath(root, m)
  {
    if modules != [] {
      var init := modules[..|modules| - 1];
      assert modules == init + [modules[|modules| - 1]];
      CandidatesMembership(root, init, p);
    }
  }

  /** The candidates that are directories, in their original order, duplicates kept. */
  function Existing(paths: seq<string>, dirs: set<string>): (found: seq<string>)
    ensures |found| <= |paths|
  {
    if paths == [] then []
    else
      var last := paths[|paths| - 1];
      Existing(paths[..|paths| - 1], dirs) + (if last in dirs then [last] else [])
  }

  /** The candidates that are not directories, in their original order. */
  function Missing(paths: seq<string>, dirs: set<string>): (lost: seq<string>)
    ensures |lost| <= |paths|
  {
    if paths == [] then []
    else
      var last := paths[|paths| - 1];
      Missing(paths[..|paths| - 1], dirs) + (if last in dirs then [] else [last])
  }

  /** A path is kept exactly when it is a candidate and a directory; it is missing exactly when it is a candidate and not one. */
  lemma {:induction false} FilterMembership(paths: seq<string>, dirs: set<string>, p: string)
    ensures p in Existing(paths, dirs) <==> p in paths && p in dirs
    ensures p in Missing(paths, dirs) <==> p in paths && p !in dirs
  {
    if paths != [] {
      var init := paths[..|paths| - 1];
      assert paths == init + [paths[|paths| - 1]];
      FilterMembership(init, dirs, p);
    }
  }

  /** Filtering one more candidate extends the kept or the missing list by that candidate. */
  lemma FilterSnoc(paths: seq<string>, p: string, dirs: set<string>)
    ensures Existing(paths + [p], dirs) == Existing(paths, dirs) + (if p in dirs then [p] else [])
    ensures Missing(paths + [p], dirs) == Missing(paths, dirs) + (if p in dirs then [] else [p])
  {
    assert (paths + [p])[..|paths|] == paths;
  }

  /** Filtering distributes over concatenation: the kept candidates keep their order. */
  lemma {:induction false} ExistingAppend(a: seq<string>, b: seq<string>, dirs: set<string>)
    ensures Existing(a + b, dirs) == Existing(a, dirs) + Existing(b, dirs)
    decreases |b|
  {
    if b == [] {
      assert a + b == a;
    } else {
      var b', last := b[..|b| - 1], b[|b| - 1];
      assert (a + b)[..|a + b| - 1] == a + b';
      assert (a + b)[|a + b| - 1] == last;
      ExistingAppend(a, b', dirs);
    }
  }

  /** The same for the missing candidates: warnings come in candidate order. */
  lemma {:induction false} MissingAppend(a: seq<string>, b: seq<string>, dirs: set<string>)
    ensures Missing(a + b, dirs) == Missing(a, dirs) + Missing(b, dirs)
    decreases |b|
  {
    if b == [] {
      assert a + b == a;
    } else {
      var b', last := b[..|b| - 1], b[|b| - 1];
      assert (a + b)[..|a + b| - 1] == a + b';
      assert (a + b)[|a + b| - 1] == last;
      MissingAppend(a, b', dirs);
    }
  }

  /**
   * Every path occurs in the kept list exactly as often as in the candidates
   * when it is a directory, and not at all otherwise; the same for the missing list
   * the other way round.
   */
  lemma {:induction false} ExistingCounts(paths: seq<string>, dirs: set<string>, p: string)
    ensures multiset(Existing(paths, dirs))[p] == if p in dirs then multiset(paths)[p] else 0
    ensures multiset(Missing(paths, dirs))[p] == if p in dirs then 0 else multiset(paths)[p]
  {
    if paths != [] {
      var init := paths[..|paths| - 1];
      assert paths == init + [paths[|paths| - 1]];
      ExistingCounts(init, dirs, p);
    }
  }

  /** The kept and the missing candidates together are the candidates, as a multiset. */
  lemma {:induction false} ExistingMissingPartition(paths: seq<string>, dirs: set<string>)
    ensures |Existing(paths, dirs)| + |Missing(paths, dirs)| == |paths|
    ensures multiset(Existing(paths, dirs)) + multiset(Missing(paths, dirs)) == multiset(paths)
  {
    if paths != [] {
      var init := paths[..|paths| - 1];
      assert paths == init + [paths[|paths| - 1]];
      ExistingMissingPartition(init, dirs);
    }
  }

  /** Nothing is kept exactly when no candidate is a directory. */
  lemma {:induction false} ExistingEmptyIff(paths: seq<string>, dirs: set<string>)
    ensures Existing(paths, dirs) == [] <==> forall p :: p in paths ==> p !in dirs
  {
    if paths != [] {
      var init := paths[..|paths| - 1];
      assert paths == init + [paths[|paths| - 1]];
      ExistingEmptyIff(init, dirs);
    }
  }

  /** When every candidate is a directory, all are kept in order and none is reported missing. */
  lemma {:induction false} ExistingAll(paths: seq<string>, dirs: set<string>)
    requires forall p :: p in paths ==> p in dirs
    ensures Existing(paths, dirs) == paths
    ensures Missing(paths, dirs) == []
  {
    if paths != [] {
      var init := paths[..|paths| - 1];
      assert paths == init + [paths[|paths| - 1]];
      ExistingAll(init, dirs);
    }
  }

  /** When nothing is kept, every candidate is reported missing, in order. */
  lemma {:induction false} NoneKeptAllMissing(paths: seq<string>, dirs: set<string>)
    requires Existing(paths, dirs) == []
    ensures Missing(paths, dirs) == paths
  {
    if paths != [] {
      var init := paths[..|paths| - 1];
      assert paths == init + [paths[|paths| - 1]];
      NoneKeptAllMissing(init, dirs);
    }
  }
}
