# Spryker composer-merge-plugin: autoload merging, modelled in Dafny

This project models the part of the Composer plugin that merges the
`autoload` and `autoload-dev` sections of secondary `composer.json`
manifests (Spryker bundles) into the root package before Composer dumps the
autoloader.

The model has four pieces.

- **Loading.** `ExtraPackage` reads a manifest and gives it version
  `"1.0.0"` when `version` is missing or null. It then lets Composer's
  `ArrayLoader` build a package and accepts only a `CompletePackage`.
- **Rewriting.** `fixRelativePaths` prefixes every leaf of an autoload
  section with the manifest's directory and a slash. It adds nothing when
  that directory is `.`.
- **Merging.** `mergeAutoload` merges each non-empty section into the root's
  section with PHP's `array_merge_recursive`.
- **Driving.** `MergePlugin::mergeFiles` globs two fixed patterns and loads,
  logs and merges every match in order.

Modules, one per concern:

| file | module | contents |
|---|---|---|
| `php_array.dfy` | `PhpArray` | ordered PHP arrays (`Key`, `Value`, `Entry`), key lookup, `$a[] = $v`, leaf sequences |
| `array_merge.dfy` | `ArrayMerge` | `array_merge_recursive` and its properties |
| `path_name.dfy` | `PathName` | PHP `dirname` on Unix paths |
| `relative_paths.dfy` | `RelativePaths` | `fixRelativePaths` and its characterisation |
| `extra_package.dfy` | `Merge` | `readPackageJson`, `loadPackage`, `mergeAutoload` |
| `merge_plugin.dfy` | `Plugin` | `mergeFiles` / `mergeFile` as a fold over the globbed paths |

Foreign code is passed in as function parameters:

- `JsonFile::read` becomes `read: string -> JsonRead`;
- `ArrayLoader::load` becomes `loader: Manifest -> LoaderResult`;
- PHP's `glob` becomes `glob: string -> seq<string>`.

Exceptions become the `Err` case of a `Result`. Logging becomes the run's
list of log lines.

A PHP array is a sequence of entries. `array_merge_recursive` follows PHP's
`php_array_merge_recursive`:

- integer keys of the first array are renumbered;
- integer-keyed source entries are appended under the next free index, which
  is one more than the largest integer key and never below 0 (the rule before
  PHP 8.3);
- a string key the destination lacks is added;
- a string key it has merges the two values: a scalar destination value
  becomes `[0 => x]`, an array source value is merged in recursively, and a
  scalar source value is appended.

Two facts about the code shape the model of the plugin:

- **Failed file.** `mergeFile` has no `try`/`catch`. The first file that
  fails to load ends the run with its error, and the merges already done stay
  in the root.
- **Include patterns.** The patterns are `vendor/spryker/spryker/Bundles/*/`
  and `vendor/spryker/spryker-shop/Bundles/*/`. They name directories, not
  manifest files, and the matches are passed to `ExtraPackage` as they are.

## Model

| member | source | states |
|---|---|---|
| Merge.ReadPackageJsonDefaultsVersion | src/Spryker/Composer/Merge/ExtraPackage.php:63-73 | afterwards `version` is set; it is the manifest's own when that was set and `"1.0.0"` when it was missing or null; every other key keeps its value and position, and an entry is added only when `version` was missing |
| Merge.ReadPackageJson | src/Spryker/Composer/Merge/ExtraPackage.php:63-73 | computes the manifest after defaulting; its contract is Merge.ReadPackageJsonDefaultsVersion |
| Merge.IsSet | src/Spryker/Composer/Merge/ExtraPackage.php:68 | `isset`: the key is present and its value is not null; used by Merge.ReadPackageJsonDefaultsVersion, whose clauses split on it |
| PhpArray.GetAfterAppend | src/Spryker/Composer/Merge/ExtraPackage.php:68-70 | assigning to a key the array lacks adds exactly that key with that value and leaves every other lookup as it was |
| PhpArray.FindAfterUpdate | src/Spryker/Composer/Merge/ExtraPackage.php:68-70 | assigning to a key the array has moves no key and keeps keys distinct |
| PhpArray.GetAfterUpdate | src/Spryker/Composer/Merge/ExtraPackage.php:68-70 | assigning to a key the array has stores the new value under it and leaves every other lookup as it was |
| PhpArray.NextIndex | src/Spryker/Composer/Merge/ExtraPackage.php:85-88 | the index `$a[] = $v` uses is above every integer key, and is 0 or one more than an existing integer key |
| PhpArray.Append | src/Spryker/Composer/Merge/ExtraPackage.php:85-88 | `$a[] = $v` keeps the array as a prefix and adds `v` under a fresh integer key |
| Merge.LoadPackage | src/Spryker/Composer/Merge/ExtraPackage.php:45-56 | loading succeeds exactly when the file decodes and the loader builds a complete package, and the package kept is the loader's (its two autoload sections); any other package class fails with "Expected instance of CompletePackage, got <class>" |
| RelativePaths.Base | src/Spryker/Composer/Merge/ExtraPackage.php:108-109 | the prefix is empty or ends in a slash |
| RelativePaths.FixValue | src/Spryker/Composer/Merge/ExtraPackage.php:111-116 | the callback of `array_walk_recursive` on one value; its contract is RelativePaths.FixRelativePaths and RelativePaths.FixIsUnique |
| RelativePaths.FixEntriesKeys | src/Spryker/Composer/Merge/ExtraPackage.php:111-116 | the walk keeps every key in place, so distinct keys stay distinct |
| RelativePaths.FixEntriesGet | src/Spryker/Composer/Merge/ExtraPackage.php:111-116 | every key holds the rewritten form of what it held, and a missing key stays missing |
| RelativePaths.FixRelativePaths | src/Spryker/Composer/Merge/ExtraPackage.php:106-119 | same keys, key order and nesting; the leaves, read depth-first, are the old leaves each with the prefix in front; no null leaf is left; string keys and distinct keys are kept |
| RelativePaths.FixIsUnique | src/Spryker/Composer/Merge/ExtraPackage.php:111-116 | any value with the input's shape, no null leaf and the prefixed leaves is the rewrite, so the walk does nothing but prefix leaves |
| RelativePaths.FixRelativePathsInCurrentDirectory | src/Spryker/Composer/Merge/ExtraPackage.php:108-114 | for a manifest whose directory is `.` the rewrite is the identity on sections without null leaves |
| RelativePaths.FixRelativePathsInDirectory | src/Spryker/Composer/Merge/ExtraPackage.php:108-114 | for a manifest at `dir/name` every leaf gets `dir/` in front |
| RelativePaths.SrcInVendorDirectory | src/Spryker/Composer/Merge/ExtraPackage.php:108-116 | the path `src/` of a manifest at `vendor/x/y/composer.json` becomes `vendor/x/y/src/` |
| RelativePaths.SrcInCurrentDirectory | src/Spryker/Composer/Merge/ExtraPackage.php:108-116 | the path `src/` of a manifest at `composer.json` stays `src/` |
| PathName.Dirname | src/Spryker/Composer/Merge/ExtraPackage.php:108 | `dirname` is empty only for the empty path; otherwise it is `.`, `/`, or a proper prefix of the path that is followed by a slash and does not end in one |
| PathName.DirnameOfBareName | src/Spryker/Composer/Merge/ExtraPackage.php:108 | a name without a slash has directory `.` |
| PathName.DirnameOfFileInDirectory | src/Spryker/Composer/Merge/ExtraPackage.php:108 | the directory of `dir/name` is `dir` |
| PathName.DirnameIgnoresTrailingSlash | src/Spryker/Composer/Merge/ExtraPackage.php:108 | a trailing slash does not change the directory unless the path is all slashes |
| ArrayMerge.ToArray | src/Spryker/Composer/Merge/ExtraPackage.php:85-88 | the array a colliding value is turned into has the same leaves as the value |
| ArrayMerge.Renumber | src/Spryker/Composer/Merge/ExtraPackage.php:85-88 | the copy of the root section keeps every value in place and every string key, and keeps keys distinct; its integer keys are stated by ArrayMerge.RenumberNumbersIntKeys |
| ArrayMerge.RenumberNumbersIntKeys | src/Spryker/Composer/Merge/ExtraPackage.php:85-88 | in the copy, the integer-keyed entries get the keys 0, 1, 2, ... in the order they appear |
| ArrayMerge.RenumberKeepsList | src/Spryker/Composer/Merge/ExtraPackage.php:85-88 | the copy of a list is the same list |
| ArrayMerge.RenumberGet | src/Spryker/Composer/Merge/ExtraPackage.php:85-88 | the copy holds the same value under every string key |
| ArrayMerge.MergeValue | src/Spryker/Composer/Merge/ExtraPackage.php:85-88 | merging two values under one string key always gives an array; what it holds is stated by ArrayMerge.MergeValueGet, ArrayMerge.MergeValueKeepsDestination, ArrayMerge.CollidingScalars, ArrayMerge.PathListsConcatenate and ArrayMerge.MergeValueLeaves |
| ArrayMerge.MergeValueGet | src/Spryker/Composer/Merge/ExtraPackage.php:85-88 | two arrays colliding under a string key merge recursively: every inner string key holds the merge of both inner values, or the one present, or nothing |
| ArrayMerge.MergeValueKeepsDestination | src/Spryker/Composer/Merge/ExtraPackage.php:85-88 | a collision keeps the destination's entries (a scalar cast to `[0 => x]`) under their keys and in place; an array source adds its string keys, a scalar source adds exactly one entry |
| ArrayMerge.CollidingScalars | src/Spryker/Composer/Merge/ExtraPackage.php:85-88 | any two scalars, null included, colliding under a string key become `[0 => x, 1 => y]` |
| ArrayMerge.ToArrayOfPathList | src/Spryker/Composer/Merge/ExtraPackage.php:85-88 | casting a single path or a path list to an array gives a list of the same paths |
| ArrayMerge.PathListsConcatenate | src/Spryker/Composer/Merge/ExtraPackage.php:85-88 | two path lists or single paths colliding under a string key become one list: the destination's paths, then the source's |
| ArrayMerge.MergeEntry | src/Spryker/Composer/Merge/ExtraPackage.php:85-88 | merging one source entry; its contract is ArrayMerge.MergeEntryGet and ArrayMerge.MergeEntryKeepsDestination |
| ArrayMerge.MergeEntryGet | src/Spryker/Composer/Merge/ExtraPackage.php:85-88 | after one source entry under `k`, `k` holds the destination's value merged with the entry's, or the entry's value if the destination lacked `k`; every other string key is unchanged |
| ArrayMerge.MergeInto | src/Spryker/Composer/Merge/ExtraPackage.php:85-88 | merging a whole source array; its contract is ArrayMerge.MergeIntoGet and ArrayMerge.MergeIntoKeepsDestination |
| ArrayMerge.MergeIntoGet | src/Spryker/Composer/Merge/ExtraPackage.php:85-88 | under every top-level string key, the result holds the merge of the two sides' values when both have the key, otherwise the one value present, otherwise nothing |
| ArrayMerge.ArrayMergeRecursive | src/Spryker/Composer/Merge/ExtraPackage.php:85-88 | `array_merge_recursive`; its contract is the lemmas about it below |
| ArrayMerge.ArrayMergeRecursiveGet | src/Spryker/Composer/Merge/ExtraPackage.php:85-88 | a top-level string key in both arrays holds the merge of the two values; a key in one array keeps that array's value; a key in neither is absent |
| ArrayMerge.SameKeyListsConcatenate | src/Spryker/Composer/Merge/ExtraPackage.php:85-88 | two path lists under the same string key become one list: the first array's paths, then the second's |
| ArrayMerge.RenumberLeaves | src/Spryker/Composer/Merge/ExtraPackage.php:85-88 | renumbering keeps the leaves in order |
| ArrayMerge.ArrayMergeRecursiveLeaves | src/Spryker/Composer/Merge/ExtraPackage.php:85-88 | the leaf multiset of the merge is that of the first array plus that of the second |
| ArrayMerge.MergeIntoKeepsDestination | src/Spryker/Composer/Merge/ExtraPackage.php:85-88 | the destination's entries keep their keys and positions, and the result's string keys are the destination's plus the source's |
| ArrayMerge.MergeEntryKeepsDestination | src/Spryker/Composer/Merge/ExtraPackage.php:85-88 | the same for one source entry |
| ArrayMerge.ArrayMergeRecursiveStringKeys | src/Spryker/Composer/Merge/ExtraPackage.php:85-88 | the merge's string keys are exactly the two arrays' string keys |
| ArrayMerge.ArrayMergeRecursiveWellFormed | src/Spryker/Composer/Merge/ExtraPackage.php:85-88 | merging two arrays with distinct keys at every level gives one again |
| ArrayMerge.MergeListsConcatenates | src/Spryker/Composer/Merge/ExtraPackage.php:85-88 | merging integer-keyed entries into a list gives a list of the first values followed by the second |
| ArrayMerge.CollidingScalarsBecomeList | src/Spryker/Composer/Merge/ExtraPackage.php:85-88 | two strings under the same string key become the list `[x, y]` |
| Merge.MergeSection | src/Spryker/Composer/Merge/ExtraPackage.php:84-89 | an empty package section leaves the root section exactly as it was |
| Merge.MergeSectionLeaves | src/Spryker/Composer/Merge/ExtraPackage.php:84-89 | a merged section holds the root's leaves plus the rewritten package leaves |
| Merge.MergeSectionStringKeys | src/Spryker/Composer/Merge/ExtraPackage.php:84-89 | a merged section's string keys are the root's plus the package's |
| Merge.NamespacePathsConcatenate | src/Spryker/Composer/Merge/ExtraPackage.php:84-88 | a namespace declared under the same strategy key (`psr-4`, `psr-0`) in the root's section and the package's gets one path list: the root's paths, then the package's paths with the manifest's directory in front |
| Merge.MergeAutoload | src/Spryker/Composer/Merge/ExtraPackage.php:80-99 | an empty `autoload` leaves the root's `autoload` unchanged, and an empty `autoload-dev` leaves its `autoload-dev` unchanged |
| Merge.MergeAutoloadLeaves | src/Spryker/Composer/Merge/ExtraPackage.php:82-98 | in both sections nothing is dropped or overwritten: the leaf multiset grows by the package's rewritten leaves |
| Merge.MergeAutoloadStringKeys | src/Spryker/Composer/Merge/ExtraPackage.php:82-98 | every string key of the root's sections is still present, and the package's are added |
| Merge.SectionsDoNotMix | src/Spryker/Composer/Merge/ExtraPackage.php:82-98 | the merged `autoload` does not depend on either `autoload-dev`, and the merged `autoload-dev` does not depend on either `autoload` |
| Merge.MergeAutoloadWellFormed | src/Spryker/Composer/Merge/ExtraPackage.php:82-98 | the merged root keeps distinct keys at every level |
| Merge.MergeAutoloadTwiceDuplicates | src/Spryker/Composer/Merge/ExtraPackage.php:85-97 | merging a package that has a leaf a second time strictly increases the root's leaf count, so the merge is not idempotent |
| Merge.EmptyPsr4Merges | src/Spryker/Composer/Merge/ExtraPackage.php:85-88 | `{"psr-4": []}` merges into an empty root or into itself as `{"psr-4": []}` |
| Merge.LeaflessSectionCanMergeIdempotently | src/Spryker/Composer/Merge/ExtraPackage.php:84-88 | a non-empty section without leaves can merge twice with no change, so the merge duplicates only when a leaf exists |
| Plugin.Concat | src/Spryker/Composer/Plugin/MergePlugin.php:91 | flattening keeps every path of every list, adds none, and is empty exactly when all lists are; its order is stated by Plugin.ConcatCons |
| Plugin.ConcatCons | src/Spryker/Composer/Plugin/MergePlugin.php:91 | the flattening is the first list followed by the flattening of the rest, so every list appears whole and in order |
| Plugin.CollectPaths | src/Spryker/Composer/Plugin/MergePlugin.php:89-91 | every pattern globbed and the matches flattened; its contract for the plugin's patterns is Plugin.IncludedPaths |
| Plugin.IncludedPaths | src/Spryker/Composer/Plugin/MergePlugin.php:45-48 | the paths visited are the first pattern's matches followed by the second's |
| Plugin.LogLine | src/Spryker/Composer/Plugin/MergePlugin.php:105 | the `sprintf` of one console line; which lines a run writes is stated by Plugin.RunStopsAtFirstFailure |
| Plugin.LogLinesCons | src/Spryker/Composer/Plugin/MergePlugin.php:105 | the log of a path followed by more paths is that path's line, then the rest's log |
| Plugin.LogLines | src/Spryker/Composer/Plugin/MergePlugin.php:105 | the reference log, one line per path in order; Plugin.RunStopsAtFirstFailure proves a run's log is this log of the paths before the failure, and of all paths when none fails |
| Plugin.Load | src/Spryker/Composer/Plugin/MergePlugin.php:104 | `new ExtraPackage($path)` as a function of the path; what it returns is stated by Merge.LoadPackage |
| Plugin.Run | src/Spryker/Composer/Plugin/MergePlugin.php:91-107 | a run logs at most one line per path |
| Plugin.MergeAll | src/Spryker/Composer/Plugin/MergePlugin.php:91-107 | the plugin's run logs at most one line per path |
| Plugin.RunStopsAtFirstFailure | src/Spryker/Composer/Plugin/MergePlugin.php:91-107 | the log is the log lines of the paths before the first that fails to load, every logged path loaded, the failure is that path's load error, and a run without failure logged every path |
| Plugin.MergeAllStopsAtFirstFailure | src/Spryker/Composer/Plugin/MergePlugin.php:91-107 | the same for the plugin's own loading and merging |
| Plugin.FailureKeepsEarlierMerges | src/Spryker/Composer/Plugin/MergePlugin.php:91-106 | the root left by a failed run is the root a run over the files before the failing one leaves |
| Plugin.NoMatchesNoWork | src/Spryker/Composer/Plugin/MergePlugin.php:89-93 | patterns that match nothing give no log line, no merge and no error |
| Plugin.MergeEach | src/Spryker/Composer/Plugin/MergePlugin.php:91-93 | the loop over the paths computes the fold `Run` |
| Plugin.MergeFiles | src/Spryker/Composer/Plugin/MergePlugin.php:85-94 | globbing the include patterns and merging every match is the fold over the collected paths |

## Left out

- JSON decoding (`JsonFile::read`) and `ArrayLoader::load` are foreign code.
  They are function parameters. Their exceptions become `Unreadable` and
  `Rejected` results. The rules by which Composer picks a package class are
  not modelled.
- JSON numbers and booleans are not modelled. Autoload sections hold strings,
  lists and maps. A JSON key PHP would store as an integer is assumed to
  arrive as an integer key.
- PathName.Dirname handles only `/` as a separator. Windows drive letters
  and backslashes are not modelled.
- The next free index follows PHP before 8.3, where it never goes below 0.
  PHP 8.3 continues from a negative largest key.
- RelativePaths.FixRelativePathsInCurrentDirectory requires that no leaf is
  null. PHP's string interpolation turns a null leaf into `""`, so the
  rewrite changes a null even when the prefix is empty.
- Plugin.MergeAll: its own contract says only that at most one line is
  logged per path. Its behaviour is stated by the lemmas about it.
- Plugin.Run: its own contract says only that at most one line is logged per
  path. Its behaviour is stated by the lemmas about it.
- Plugin activation, the event subscription at priority 50000 and
  `preAutoloadDump` (MergePlugin.php lines 30 and 56-80) are host wiring with
  no logic of their own.
- `glob` returning `false` on error is not modelled. The glob parameter
  always returns a list.
- The console is an output list, not a side effect.
- The root package is returned rather than changed in place. A failed run
  returns the root as far as it got, which is the state PHP leaves behind.
- `MergePlugin.php` imports `PluginState`, `PackageEvents`, `InstallOperation`
  and `Installer` but uses none of them. It has no handler for package
  installation and no re-install step, so the model has none either.
- PhpArray.NextIndex: integer keys are unbounded. PHP keys are 64-bit, and
  `$a[] = $v` fails with "Cannot add element to the array as the next element
  is already occupied" once the largest key is `PHP_INT_MAX`. The model never
  fails there.
- Root-package fields other than `autoload` and `autoload-dev` are not
  modelled. The code neither reads nor writes them.
