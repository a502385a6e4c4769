/**
 `Spryker\Composer\Merge\ExtraPackage`: one secondary manifest, read from a
 path, given a default version, turned into a package by Composer's loader,
 and merged section by section into the root package's autoload data.

 Reading the JSON file and Composer's `ArrayLoader` are foreign code; they are
 parameters here: `read` maps a path to the decoded manifest or a failure,
 and `loader` maps a manifest to the kind of package object it would build.
 */
module Merge {
  import opened PhpArray
  import ArrayMerge
  import RelativePaths
  import PathName

  /** A decoded manifest: the top-level JSON object as a PHP array. */
  type Manifest = seq<Entry>

  const VersionKey: Key := SKey("version")
  const DefaultVersion: string := "1.0.0"

  /** What `JsonFile::read()` does with a path. */
  datatype JsonRead = Decoded(json: Manifest) | Unreadable(message: string)

  /** What `ArrayLoader::load()` builds from a manifest. */
  datatype LoaderResult =
    | CompletePackage(autoload: seq<Entry>, devAutoload: seq<Entry>)
    | OtherPackage(className: string)
    | Rejected(message: string)

  datatype LoadError =
    | ReadFailed(message: string)
    | LoaderFailed(message: string)
    | UnexpectedPackageType(message: string)

  datatype Result<T> = Ok(value: T) | Err(error: LoadError)

  /** A loaded secondary manifest: its path and the package's two autoload sections. */
  datatype ExtraPackage = ExtraPackage(path: string, autoload: seq<Entry>, devAutoload: seq<Entry>)

  /** The parts of the root package this code reads and replaces. */
  datatype RootPackage = RootPackage(autoload: seq<Entry>, devAutoload: seq<Entry>)

  /** PHP's `isset($json[$k])`: the key is present and its value is not null. */
  predicate IsSet(json: Manifest, k: Key)
  {
    Get(json, k).Some? && !Get(json, k).value.Null?
  }

  /**
   `readPackageJson`: the decoded manifest, with `version` set to "1.0.0"
   when it is missing or null. A null version is overwritten where it stands;
   a missing one is added at the end.
   */
  function ReadPackageJson(json: Manifest): Manifest
  {
    if IsSet(json, VersionKey) then json
    else
      var j := Find(json, VersionKey);
      if j < |json| then json[j := Entry(VersionKey, Str(DefaultVersion))]
      else json + [Entry(VersionKey, Str(DefaultVersion))]
  }

  /**
   After `readPackageJson` the version is set: to the manifest's own when it
   had one, to "1.0.0" otherwise. No other key is added, removed, moved or
   given another value.
   */
  lemma ReadPackageJsonDefaultsVersion(json: Manifest)
    ensures var r := ReadPackageJson(json);
      && IsSet(r, VersionKey)
      && (IsSet(json, VersionKey) ==> r == json)
      && (!IsSet(json, VersionKey) ==> Get(r, VersionKey) == Some(Str(DefaultVersion)))
      && (forall k :: k != VersionKey ==> Get(r, k) == Get(json, k))
      && |r| == |json| + (if HasKey(json, VersionKey) then 0 else 1)
      && (forall i :: 0 <= i < |json| ==> r[i].key == json[i].key)
      && (WellFormedEntries(json) ==> WellFormedEntries(r))
  {
    var versioned := Entry(VersionKey, Str(DefaultVersion));
    var j := Find(json, VersionKey);
    if !IsSet(json, VersionKey) {
      if j < |json| {
        FindAfterUpdate(json, j, versioned);
      } else {
        GetAfterAppend(json, versioned);
      }
    }
  }

  /**
   `loadPackage` (and so the constructor): the manifest at `path`, defaulted,
   handed to the loader. Anything but a complete package is an error.
   */
  function LoadPackage(path: string, read: string -> JsonRead, loader: Manifest -> LoaderResult)
    : (r: Result<ExtraPackage>)
    ensures r.Ok? <==> read(path).Decoded? && loader(ReadPackageJson(read(path).json)).CompletePackage?
    ensures r.Ok? ==>
      var loaded := loader(ReadPackageJson(read(path).json));
      r.value == ExtraPackage(path, loaded.autoload, loaded.devAutoload)
    ensures read(path).Decoded? && loader(ReadPackageJson(read(path).json)).OtherPackage? ==>
      r == Err(UnexpectedPackageType("Expected instance of CompletePackage, got "
                                     + loader(ReadPackageJson(read(path).json)).className))
  {
    match read(path)
    case Unreadable(message) => Err(ReadFailed(message))
    case Decoded(json) =>
      match loader(ReadPackageJson(json))
      case CompletePackage(autoload, devAutoload) => Ok(ExtraPackage(path, autoload, devAutoload))
      case OtherPackage(className) =>
        Err(UnexpectedPackageType("Expected instance of CompletePackage, got " + className))
      case Rejected(message) => Err(LoaderFailed(message))
  }

  /**
   One section of `mergeAutoload`: nothing happens for an empty section;
   otherwise the rewritten section is merged into the root's with
   `array_merge_recursive`.
   */
  function MergeSection(rootSection: seq<Entry>, path: string, section: seq<Entry>): (r: seq<Entry>)
    ensures section == [] ==> r == rootSection
  {
    if section == [] then rootSection
    else ArrayMerge.ArrayMergeRecursive(rootSection, RelativePaths.FixRelativePaths(path, section))
  }

  lemma MergeSectionLeaves(rootSection: seq<Entry>, path: string, section: seq<Entry>)
    ensures Leaves(MergeSection(rootSection, path, section))
         == Leaves(rootSection) + Leaves(RelativePaths.FixRelativePaths(path, section))
  {
    if section != [] {
      ArrayMerge.ArrayMergeRecursiveLeaves(rootSection, RelativePaths.FixRelativePaths(path, section));
    }
  }

  lemma MergeSectionStringKeys(rootSection: seq<Entry>, path: string, section: seq<Entry>)
    ensures StringKeys(MergeSection(rootSection, path, section)) == StringKeys(rootSection) + StringKeys(section)
  {
    if section != [] {
      ArrayMerge.ArrayMergeRecursiveStringKeys(rootSection, RelativePaths.FixRelativePaths(path, section));
    }
  }

  /**
   A namespace declared in both the root's and the package's section under
   the same strategy key (`psr-4`, `psr-0`) ends up with one path list: the
   root's paths, then the package's rewritten ones.
   */
  lemma NamespacePathsConcatenate(rootSection: seq<Entry>, path: string, section: seq<Entry>,
                                  strategy: string, ns: string,
                                  rootMap: seq<Entry>, rootPaths: Value,
                                  pkgMap: seq<Entry>, pkgPaths: Value)
    requires DistinctKeys(section) && DistinctKeys(pkgMap)
    requires Get(rootSection, SKey(strategy)) == Some(Arr(rootMap)) && Get(rootMap, SKey(ns)) == Some(rootPaths)
    requires Get(section, SKey(strategy)) == Some(Arr(pkgMap)) && Get(pkgMap, SKey(ns)) == Some(pkgPaths)
    requires ArrayMerge.PathList(rootPaths) && ArrayMerge.PathList(pkgPaths)
    ensures var merged := Get(MergeSection(rootSection, path, section), SKey(strategy));
            && merged.Some? && merged.value.Arr?
            && var nsPaths := Get(merged.value.entries, SKey(ns));
               && nsPaths.Some? && nsPaths.value.Arr? && ArrayMerge.PathList(nsPaths.value)
               && ArrayMerge.ListOf(nsPaths.value)
                  == ArrayMerge.ListOf(rootPaths) + ArrayMerge.ListOf(RelativePaths.FixValue(pkgPaths, RelativePaths.Base(path)))
  {
    var base := RelativePaths.Base(path);
    var fixed := RelativePaths.FixEntries(section, base);
    var fixedMap := RelativePaths.FixEntries(pkgMap, base);
    var fixedPaths := RelativePaths.FixValue(pkgPaths, base);
    assert section != [];
    assert MergeSection(rootSection, path, section) == ArrayMerge.ArrayMergeRecursive(rootSection, fixed);
    RelativePaths.FixEntriesGet(section, base, SKey(strategy));
    RelativePaths.FixEntriesKeys(section, base);
    RelativePaths.FixEntriesGet(pkgMap, base, SKey(ns));
    RelativePaths.FixEntriesKeys(pkgMap, base);
    if pkgPaths.Arr? {
      RelativePaths.FixEntriesKeys(pkgPaths.entries, base);
    }
    assert ArrayMerge.PathList(fixedPaths);
    ArrayMerge.ArrayMergeRecursiveGet(rootSection, fixed, strategy);
    ArrayMerge.MergeValueGet(rootMap, fixedMap, ns);
    ArrayMerge.PathListsConcatenate(rootPaths, fixedPaths);
  }

  /** `mergeAutoload($root)`: `autoload` and `autoload-dev`, each on its own. */
  function MergeAutoload(pkg: ExtraPackage, root: RootPackage): (r: RootPackage)
    ensures pkg.autoload == [] ==> r.autoload == root.autoload
    ensures pkg.devAutoload == [] ==> r.devAutoload == root.devAutoload
  {
    RootPackage(
      MergeSection(root.autoload, pkg.path, pkg.autoload),
      MergeSection(root.devAutoload, pkg.path, pkg.devAutoload))
  }

  /**
   Nothing is dropped or overwritten: each merged section holds the root's
   leaves plus the package's rewritten leaves.
   */
  lemma MergeAutoloadLeaves(pkg: ExtraPackage, root: RootPackage)
    ensures Leaves(MergeAutoload(pkg, root).autoload)
         == Leaves(root.autoload) + Leaves(RelativePaths.FixRelativePaths(pkg.path, pkg.autoload))
    ensures Leaves(MergeAutoload(pkg, root).devAutoload)
         == Leaves(root.devAutoload) + Leaves(RelativePaths.FixRelativePaths(pkg.path, pkg.devAutoload))
  {
    MergeSectionLeaves(root.autoload, pkg.path, pkg.autoload);
    MergeSectionLeaves(root.devAutoload, pkg.path, pkg.devAutoload);
  }

  /** Every string key of the root's sections survives, and the package's are added. */
  lemma MergeAutoloadStringKeys(pkg: ExtraPackage, root: RootPackage)
    ensures StringKeys(MergeAutoload(pkg, root).autoload) == StringKeys(root.autoload) + StringKeys(pkg.autoload)
    ensures StringKeys(MergeAutoload(pkg, root).devAutoload)
         == StringKeys(root.devAutoload) + StringKeys(pkg.devAutoload)
  {
    MergeSectionStringKeys(root.autoload, pkg.path, pkg.autoload);
    MergeSectionStringKeys(root.devAutoload, pkg.path, pkg.devAutoload);
  }

  /**
   The sections do not mix: the merged `autoload` depends neither on the
   root's nor on the package's `autoload-dev`, and the other way round.
   */
  lemma SectionsDoNotMix(pkg: ExtraPackage, root: RootPackage, otherDev: seq<Entry>, otherAutoload: seq<Entry>)
    ensures MergeAutoload(pkg.(devAutoload := otherDev), root.(devAutoload := otherDev)).autoload
         == MergeAutoload(pkg, root).autoload
    ensures MergeAutoload(pkg.(autoload := otherAutoload), root.(autoload := otherAutoload)).devAutoload
         == MergeAutoload(pkg, root).devAutoload
  {
  }

  /** Merging keeps the root a PHP array with distinct keys at every level. */
  lemma MergeAutoloadWellFormed(pkg: ExtraPackage, root: RootPackage)
    requires WellFormedEntries(pkg.autoload) && WellFormedEntries(pkg.devAutoload)
    requires WellFormedEntries(root.autoload) && WellFormedEntries(root.devAutoload)
    ensures WellFormedEntries(MergeAutoload(pkg, root).autoload)
    ensures WellFormedEntries(MergeAutoload(pkg, root).devAutoload)
  {
    if pkg.autoload != [] {
      ArrayMerge.ArrayMergeRecursiveWellFormed(
        root.autoload, RelativePaths.FixRelativePaths(pkg.path, pkg.autoload));
    }
    if pkg.devAutoload != [] {
      ArrayMerge.ArrayMergeRecursiveWellFormed(
        root.devAutoload, RelativePaths.FixRelativePaths(pkg.path, pkg.devAutoload));
    }
  }

  /**
   `mergeAutoload` is not idempotent: a second merge of a package that has a
   leaf in some section adds that section's leaves again.
   */
  lemma MergeAutoloadTwiceDuplicates(pkg: ExtraPackage, root: RootPackage)
    requires LeafSeqs(pkg.autoload) != [] || LeafSeqs(pkg.devAutoload) != []
    ensures var once := MergeAutoload(pkg, root);
            var twice := MergeAutoload(pkg, once);
            |Leaves(twice.autoload)| + |Leaves(twice.devAutoload)|
              > |Leaves(once.autoload)| + |Leaves(once.devAutoload)|
    ensures MergeAutoload(pkg, MergeAutoload(pkg, root)) != MergeAutoload(pkg, root)
  {
    var fixed := RelativePaths.FixRelativePaths(pkg.path, pkg.autoload);
    var fixedDev := RelativePaths.FixRelativePaths(pkg.path, pkg.devAutoload);
    var once := MergeAutoload(pkg, root);
    MergeAutoloadLeaves(pkg, root);
    MergeAutoloadLeaves(pkg, once);
    assert |Leaves(fixed)| == |LeafSeqs(pkg.autoload)|;
    assert |Leaves(fixedDev)| == |LeafSeqs(pkg.devAutoload)|;
  }

  /** The `autoload` section `{"psr-4": []}`: non-empty, without a single path. */
  const EmptyPsr4: seq<Entry> := [Entry(SKey("psr-4"), Arr([]))]

  lemma EmptyPsr4Merges()
    ensures ArrayMerge.ArrayMergeRecursive([], EmptyPsr4) == EmptyPsr4
    ensures ArrayMerge.ArrayMergeRecursive(EmptyPsr4, EmptyPsr4) == EmptyPsr4
  {
    var e := EmptyPsr4[0];
    EntriesSizeCons(EmptyPsr4);
    assert EmptyPsr4[1..] == [];
    assert ArrayMerge.MergeEntry([], e) == EmptyPsr4;
    assert ArrayMerge.MergeInto([], EmptyPsr4) == ArrayMerge.MergeInto(EmptyPsr4, []);
    assert EmptyPsr4[..0] == [];
    assert ArrayMerge.Renumber(EmptyPsr4) == EmptyPsr4;
    assert Find(EmptyPsr4, e.key) == 0;
    assert ArrayMerge.MergeValue(Arr([]), Arr([])) == Arr([]);
    assert ArrayMerge.MergeEntry(EmptyPsr4, e) == EmptyPsr4;
    assert ArrayMerge.MergeInto(EmptyPsr4, EmptyPsr4) == ArrayMerge.MergeInto(EmptyPsr4, []);
  }

  /**
   A section that is non-empty but has no leaf can merge idempotently:
   `{"psr-4": []}` merged a second time leaves the root as the first merge
   did. The leaf required above is needed.
   */
  lemma LeaflessSectionCanMergeIdempotently()
    ensures var pkg := ExtraPackage("composer.json", EmptyPsr4, []);
            var once := MergeAutoload(pkg, RootPackage([], []));
            MergeAutoload(pkg, once) == once
  {
    PathName.DirnameOfBareName("composer.json");
    RelativePaths.FixRelativePathsInCurrentDirectory("composer.json", EmptyPsr4);
    EmptyPsr4Merges();
  }
}
