/**
 `Spryker\Composer\Plugin\MergePlugin::mergeFiles`, run before Composer dumps
 the autoloader: every fixed include pattern is globbed, the matches are
 concatenated in pattern order, and each match is loaded as an
 `ExtraPackage`, logged, and merged into the root package.

 There is no try/catch around a file: the first file that fails to load ends
 the run with its error, and the merges already done stay in the root (the
 root package is changed in place).

 The filesystem glob is a parameter; its match order is whatever it returns.
 */
module Plugin {
  import opened PhpArray
  import opened Merge

  /** The include patterns, in order. Both name directories, not manifest files. */
  const Includes: seq<string> := [
    "vendor/spryker/spryker/Bundles/*/",
    "vendor/spryker/spryker-shop/Bundles/*/"
  ]

  /** `array_reduce($lists, 'array_merge', [])` on lists: concatenation, left to right. */
  function Concat(lists: seq<seq<string>>): (r: seq<string>)
    ensures forall i, p :: 0 <= i < |lists| && p in lists[i] ==> p in r
    ensures forall p :: p in r ==> exists i :: 0 <= i < |lists| && p in lists[i]
    ensures r == [] <==> forall i :: 0 <= i < |lists| ==> lists[i] == []
  {
    if lists == [] then []
    else
      var init := lists[..|lists| - 1];
      assert forall i :: 0 <= i < |init| ==> init[i] == lists[i];
      Concat(init) + lists[|lists| - 1]
  }

  /** Concatenation from the front: the first list, then the rest concatenated. */
  lemma {:induction false} ConcatCons(l: seq<string>, ls: seq<seq<string>>)
    ensures Concat([l] + ls) == l + Concat(ls)
    decreases |ls|
  {
    var xs := [l] + ls;
    if ls == [] {
      assert xs[..0] == [];
    } else {
      var init, last := ls[..|ls| - 1], ls[|ls| - 1];
      ConcatCons(l, init);
      calc {
        Concat(xs);
        { assert xs[..|xs| - 1] == [l] + init && xs[|xs| - 1] == last; }
        Concat([l] + init) + last;
        l + Concat(init) + last;
        l + Concat(ls);
      }
    }
  }

  /** `array_map('glob', $patterns)` flattened: every match of every pattern, pattern by pattern. */
  function CollectPaths(glob: string -> seq<string>, patterns: seq<string>): seq<string>
  {
    Concat(seq(|patterns|, i requires 0 <= i < |patterns| => glob(patterns[i])))
  }

  /** The paths the plugin visits: the first pattern's matches, then the second's. */
  lemma IncludedPaths(glob: string -> seq<string>)
    ensures CollectPaths(glob, Includes) == glob(Includes[0]) + glob(Includes[1])
  {
    var lists := seq(|Includes|, i requires 0 <= i < |Includes| => glob(Includes[i]));
    assert lists == [glob(Includes[0]), glob(Includes[1])];
    assert lists[..1] == [glob(Includes[0])];
    assert lists[..1][..0] == [];
    assert Concat(lists[..1]) == Concat([]) + glob(Includes[0]);
    assert Concat(lists) == Concat(lists[..1]) + glob(Includes[1]);
  }

  /** The console line written for each file, after it loaded and before it is merged. */
  function LogLine(path: string): string
  {
    "Loading <comment>" + path + "</comment>..."
  }

  /** The outcome of a run: the root as left, the lines logged, and the error that ended it, if any. */
  datatype MergeRun = MergeRun(root: RootPackage, log: seq<string>, failure: Option<LoadError>)

  /** The log lines for `paths`, in order. */
  function LogLines(paths: seq<string>): seq<string>
  {
    seq(|paths|, i requires 0 <= i < |paths| => LogLine(paths[i]))
  }

  lemma LogLinesCons(path: string, paths: seq<string>)
    ensures LogLines([path] + paths) == [LogLine(path)] + LogLines(paths)
  {
  }

  /**
   The loop of `mergeFiles` over a given list of paths, with loading and
   merging as parameters: load each path in turn; stop with the first load
   error; otherwise log the path and merge the package into the root.
   */
  function Run(root: RootPackage, paths: seq<string>, load: string -> Result<ExtraPackage>,
               merge: (ExtraPackage, RootPackage) -> RootPackage): (r: MergeRun)
    ensures |r.log| <= |paths|
    decreases paths
  {
    if paths == [] then MergeRun(root, [], None)
    else
      var loaded := load(paths[0]);
      if loaded.Err? then MergeRun(root, [], Some(loaded.error))
      else
        var rest := Run(merge(loaded.value, root), paths[1..], load, merge);
        MergeRun(rest.root, [LogLine(paths[0])] + rest.log, rest.failure)
  }

  /** `mergeFile()`'s first step, as a function of the path. */
  function Load(read: string -> JsonRead, loader: Manifest -> LoaderResult): string -> Result<ExtraPackage>
  {
    path => LoadPackage(path, read, loader)
  }

  /** The loop of `mergeFiles` as the plugin runs it: `ExtraPackage` loading and `mergeAutoload`. */
  function MergeAll(root: RootPackage, paths: seq<string>, read: string -> JsonRead,
                    loader: Manifest -> LoaderResult): (r: MergeRun)
    ensures |r.log| <= |paths|
  {
    Run(root, paths, Load(read, loader), MergeAutoload)
  }

  /**
   A run logs the files that loaded, in order, up to the first that does not;
   that file's load error is the run's failure, and a run without failure has
   loaded and logged every file.
   */
  lemma {:induction false} RunStopsAtFirstFailure(root: RootPackage, paths: seq<string>,
                                                  load: string -> Result<ExtraPackage>,
                                                  merge: (ExtraPackage, RootPackage) -> RootPackage)
    ensures var r := Run(root, paths, load, merge);
            && (forall i :: 0 <= i < |r.log| ==> load(paths[i]).Ok?)
            && (r.failure.None? <==> |r.log| == |paths|)
            && (r.failure.Some? ==> load(paths[|r.log|]) == Err(r.failure.value))
            && r.log == LogLines(paths[..|r.log|])
            && (r.failure.None? ==> r.log == LogLines(paths))
    decreases paths
  {
    if paths != [] {
      var loaded := load(paths[0]);
      if loaded.Ok? {
        var next := merge(loaded.value, root);
        RunStopsAtFirstFailure(next, paths[1..], load, merge);
        var rest := Run(next, paths[1..], load, merge);
        var log := [LogLine(paths[0])] + rest.log;
        assert Run(root, paths, load, merge) == MergeRun(rest.root, log, rest.failure);
        forall i | 0 <= i < |log| ensures load(paths[i]).Ok? {
          if i > 0 {
            assert paths[i] == paths[1..][i - 1];
          }
        }
        calc {
          LogLines(paths[..|log|]);
          { assert paths[..|log|] == [paths[0]] + paths[1..][..|rest.log|]; }
          LogLines([paths[0]] + paths[1..][..|rest.log|]);
          { LogLinesCons(paths[0], paths[1..][..|rest.log|]); }
          log;
        }
      } else {
        assert paths[..0] == [];
      }
    }
    assert paths[..|paths|] == paths;
  }

  /** The same for the plugin's run, in terms of `ExtraPackage` loading. */
  lemma MergeAllStopsAtFirstFailure(root: RootPackage, paths: seq<string>,
                                    read: string -> JsonRead, loader: Manifest -> LoaderResult)
    ensures var r := MergeAll(root, paths, read, loader);
            && (forall i :: 0 <= i < |r.log| ==> LoadPackage(paths[i], read, loader).Ok?)
            && (r.failure.None? <==> |r.log| == |paths|)
            && (r.failure.Some? ==> LoadPackage(paths[|r.log|], read, loader) == Err(r.failure.value))
            && r.log == LogLines(paths[..|r.log|])
            && (r.failure.None? ==> r.log == LogLines(paths))
  {
    RunStopsAtFirstFailure(root, paths, Load(read, loader), MergeAutoload);
  }

  /** A run that ends in an error keeps every merge done before the failing file. */
  lemma {:induction false} FailureKeepsEarlierMerges(root: RootPackage, paths: seq<string>,
                                                   load: string -> Result<ExtraPackage>,
                                                   merge: (ExtraPackage, RootPackage) -> RootPackage)
    ensures var r := Run(root, paths, load, merge);
            var before := Run(root, paths[..|r.log|], load, merge);
            before.failure.None? && before.root == r.root && before.log == r.log
    decreases paths
  {
    if paths != [] {
      var loaded := load(paths[0]);
      if loaded.Ok? {
        var next := merge(loaded.value, root);
        FailureKeepsEarlierMerges(next, paths[1..], load, merge);
        var rest := Run(next, paths[1..], load, merge);
        var k := |rest.log|;
        assert Run(root, paths, load, merge)
            == MergeRun(rest.root, [LogLine(paths[0])] + rest.log, rest.failure);
        var prefix := paths[..k + 1];
        assert prefix[0] == paths[0];
        assert prefix[1..] == paths[1..][..k];
        var before := Run(next, paths[1..][..k], load, merge);
        assert Run(root, prefix, load, merge)
            == MergeRun(before.root, [LogLine(paths[0])] + before.log, before.failure);
      } else {
        assert paths[..0] == [];
      }
    }
  }

  /** Patterns that match nothing give no log line, no merge and no error. */
  lemma NoMatchesNoWork(root: RootPackage, glob: string -> seq<string>,
                        read: string -> JsonRead, loader: Manifest -> LoaderResult)
    requires forall p :: p in Includes ==> glob(p) == []
    ensures MergeAll(root, CollectPaths(glob, Includes), read, loader) == MergeRun(root, [], None)
  {
    IncludedPaths(glob);
  }

  /** `mergeFiles()`: glob the include patterns, then merge every match. */
  method MergeFiles(root: RootPackage, glob: string -> seq<string>,
                    read: string -> JsonRead, loader: Manifest -> LoaderResult)
    returns (run: MergeRun)
    ensures run == MergeAll(root, CollectPaths(glob, Includes), read, loader)
  {
    run := MergeEach(root, CollectPaths(glob, Includes), Load(read, loader), MergeAutoload);
  }

  /** The `foreach` of `mergeFiles()`: `mergeFile` on each path in turn. */
  method MergeEach(root: RootPackage, paths: seq<string>, load: string -> Result<ExtraPackage>,
                   merge: (ExtraPackage, RootPackage) -> RootPackage)
    returns (run: MergeRun)
    ensures run == Run(root, paths, load, merge)
  {
    var current := root;
    var log: seq<string> := [];
    var i := 0;
    while i < |paths|
      invariant 0 <= i <= |paths|
      invariant var rest := Run(current, paths[i..], load, merge);
                Run(root, paths, load, merge) == MergeRun(rest.root, log + rest.log, rest.failure)
    {
      var loaded := load(paths[i]);
      if loaded.Err? {
        return MergeRun(current, log, Some(loaded.error));
      }
      assert paths[i..][1..] == paths[i + 1..];
      log := log + [LogLine(paths[i])];
      current := merge(loaded.value, current);
      i := i + 1;
    }
    assert paths[i..] == [];
    run := MergeRun(current, log, None);
  }
}
