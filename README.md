# Android asset roots

A Dafny model of how Bazel's Android rules collect a rule's assets
(`AndroidAssets`). A rule names asset files through its `assets` attribute
and a base directory through `assets_dir`. For every file contributed by an
upstream target, the collection does three things:

- It strips the owning package's source root from the file's root-relative
  path, which gives the package-relative path.
- It checks segment by segment that this path starts with the base directory.
- It records an *asset root*. The root is the file's exec path shortened by
  as many segments as remain below the base directory. The first file that
  is not beneath the base directory stops the whole collection with an error.

The result holds two index-aligned lists, files and roots, and compares
structurally and in order. Two more operations produce collections:

- an AAR import wraps a prebuilt tree artifact, whose root is its exec path
  plus an `assets` child;
- `empty` gives two empty lists.

Modules:

- `Paths` (`paths.dfy`): a path fragment as its sequence of segments, with
  the segment-wise prefix test, `relativeTo`, `subFragment` and `getChild`.
- `Artifacts` (`artifacts.dfy`): an artifact and its two path
  representations, and an upstream target with its files to build. An
  artifact lies inside its owner's package, and its exec path ends with its
  root-relative path. Both facts are part of the `Artifact` type.
- `Assets` (`android_assets.dfy`): validation, the collection datatype, the
  operations and the lemmas.

`from` is modelled as the method `From`, and its inner loop as the method
`CollectTarget`. `Resolve` is the reference definition of `from`. It
flattens the targets into (target label, file) pairs in iteration order and
resolves them from left to right with `ResolveAll`. `From` is proved to
return exactly `Resolve` of its rule context. `CollectTarget` is proved to
return exactly `ResolveAll` of the files before the target followed by the
target's own files. The lemmas about `ResolveAll` and `Resolve` state what
the collection promises:

- success exactly when every file is beneath the base directory;
- index pairing of files and roots;
- fail-fast, with the first violation's error;
- the root round trip.

Three consequences of the code are easy to miss:

- For a file `assets/img/a.png` under base directory `assets`, the exec
  path is truncated by the two segments of `img/a.png`. The root therefore
  still ends in `assets`: for exec path `out/cfg/pkg/assets/img/a.png` it is
  `out/cfg/pkg/assets`.
- A file whose package-relative path is the base directory itself is
  accepted. Its root is the whole exec path, so a root is not always a
  strict prefix of the exec path (`AssetRootStrictness`).
- The containment error names the file's root-relative path, not its
  package-relative path.

## Model

| member | source | states |
|---|---|---|
| Paths.StartsWithIsSegmentwise | src/main/java/com/google/devtools/build/lib/rules/android/AndroidAssets.java:64 | the prefix test holds exactly when the paths agree segment by segment from the front, for every pair of paths |
| Paths.RelativeTo | src/main/java/com/google/devtools/build/lib/rules/android/AndroidAssets.java:63-65 | stripping a prefix leaves the path that, appended to the prefix, gives back the original, and it is shorter by the prefix's length |
| Paths.RelativeToConcat | src/main/java/com/google/devtools/build/lib/rules/android/AndroidAssets.java:63-65 | stripping a prefix that was just prepended returns exactly the appended part |
| Paths.SubFragment | src/main/java/com/google/devtools/build/lib/rules/android/AndroidAssets.java:67 | the sub-fragment has `end - begin` segments, segment `k` being segment `begin + k` of the path |
| Paths.Child | src/main/java/com/google/devtools/build/lib/rules/android/AndroidAssets.java:99 | the child path is one segment longer, starts with the parent, and ends with the new name |
| Artifacts.PackageRelativePath | src/main/java/com/google/devtools/build/lib/rules/android/AndroidAssets.java:61-63 | the package source root followed by the package-relative path is the root-relative path |
| Artifacts.ExecPathEndsWithPackageRelativePath | src/main/java/com/google/devtools/build/lib/rules/android/AndroidAssets.java:61-66 | the exec path ends with the package-relative path, so truncating the exec path never goes below zero segments |
| Assets.ValidateAssetsAndAssetsDir | src/main/java/com/google/devtools/build/lib/rules/android/AndroidAssets.java:35-43 | fails exactly when one of `assets`/`assets_dir` is specified without the other (both directions); the failure is the declaration mismatch naming both attributes |
| Assets.RelativeAssetPath | src/main/java/com/google/devtools/build/lib/rules/android/AndroidAssets.java:65 | the base directory followed by the file's relative asset path is its package-relative path |
| Assets.AssetRoot | src/main/java/com/google/devtools/build/lib/rules/android/AndroidAssets.java:61-67 | the root has as many segments as the exec path minus the relative asset path, and is a prefix of the exec path |
| Assets.AssetRootRoundTrip | src/main/java/com/google/devtools/build/lib/rules/android/AndroidAssets.java:61-67 | root followed by the relative asset path is the exec path, and stripping the root from the exec path gives the relative asset path back |
| Assets.AssetRootStrictness | src/main/java/com/google/devtools/build/lib/rules/android/AndroidAssets.java:64-67 | a file that is the base directory itself has an empty relative path and the whole exec path as root; the root is strictly shorter than the exec path exactly when the file lies strictly below the base directory |
| Assets.IsBeneath | src/main/java/com/google/devtools/build/lib/rules/android/AndroidAssets.java:64 | reference definition of the containment test: the package-relative path starts with the base directory; `ResolveAllOk` and `ResolveAllError` state what it decides |
| Assets.Contributions | src/main/java/com/google/devtools/build/lib/rules/android/AndroidAssets.java:58-60 | reference definition of the nested iteration order, targets first and then each target's files; `ContributionsAppend`, `ContributionsSnoc` and `ContributionsSplit` state its properties |
| Assets.Violation | src/main/java/com/google/devtools/build/lib/rules/android/AndroidAssets.java:69-74 | reference definition of the containment error: the file's root-relative path, the generating target's label and the base directory; `ResolveAllFirstViolation` and `ResolveAllError` say when it is the result |
| Assets.ResolveAll | src/main/java/com/google/devtools/build/lib/rules/android/AndroidAssets.java:55-80 | reference definition of the two loops over the flattened files; `ResolveAllOk`, `ResolveAllPairing`, `ResolveAllFailFast`, `ResolveAllFirstViolation` and `ResolveAllError` state its properties |
| Assets.Resolve | src/main/java/com/google/devtools/build/lib/rules/android/AndroidAssets.java:46-81 | reference definition of `from`: validation, the missing-attribute shortcut, then `ResolveAll`; `ResolveOutcome` states its outcome in both directions |
| Assets.ContributionsOf | src/main/java/com/google/devtools/build/lib/rules/android/AndroidAssets.java:60 | one entry per file of the target, in the target's file order, each labelled with the target |
| Assets.ContributionsAppend | src/main/java/com/google/devtools/build/lib/rules/android/AndroidAssets.java:58-60 | iteration order: the files of two target lists in sequence are the files of the first followed by those of the second |
| Assets.ContributionsSnoc | src/main/java/com/google/devtools/build/lib/rules/android/AndroidAssets.java:58-60 | the targets up to `i + 1` contribute the files of those up to `i`, then the files of target `i` |
| Assets.ContributionsSplit | src/main/java/com/google/devtools/build/lib/rules/android/AndroidAssets.java:58-60 | the files of a target list are those of any prefix followed by those of the remaining targets |
| Assets.ResolveAllOk | src/main/java/com/google/devtools/build/lib/rules/android/AndroidAssets.java:64-75 | resolution succeeds if and only if every file's package-relative path starts with the base directory |
| Assets.ResolveAllPairing | src/main/java/com/google/devtools/build/lib/rules/android/AndroidAssets.java:55-80 | on success, both lists have one entry per input file; file `k` is input file `k`, it is beneath the base directory, and root `k` is that file's asset root |
| Assets.ResolveAllStep | src/main/java/com/google/devtools/build/lib/rules/android/AndroidAssets.java:64-76 | one more file on a successful prefix is appended with its root when beneath the base directory, and otherwise yields its containment error |
| Assets.ResolveAllFailFast | src/main/java/com/google/devtools/build/lib/rules/android/AndroidAssets.java:68-75 | once a prefix of the files fails, any later files leave the outcome unchanged |
| Assets.ResolveAllFirstViolation | src/main/java/com/google/devtools/build/lib/rules/android/AndroidAssets.java:64-75 | when file `k` is the first not beneath the base directory, the result is the containment error for file `k` and its target |
| Assets.ResolveAllError | src/main/java/com/google/devtools/build/lib/rules/android/AndroidAssets.java:68-74 | every failure is the containment error of some file that is not beneath the base directory while all files before it are |
| Assets.ResolveOutcome | src/main/java/com/google/devtools/build/lib/rules/android/AndroidAssets.java:46-81 | `from` fails with the declaration error iff the attributes are mismatched; otherwise it succeeds iff the rule has no `assets` attribute or all files are beneath the base directory; any other failure is a containment error; without the attribute both lists are empty |
| Assets.ResolveAllNext | src/main/java/com/google/devtools/build/lib/rules/android/AndroidAssets.java:64-76 | file `n` after a successful prefix either extends the collection with itself and its root, or its containment error is the result for the whole sequence |
| Assets.CollectTarget | src/main/java/com/google/devtools/build/lib/rules/android/AndroidAssets.java:60-77 | the inner loop over one target's files gives exactly the resolution of the earlier files followed by that target's files |
| Assets.From | src/main/java/com/google/devtools/build/lib/rules/android/AndroidAssets.java:46-81 | the nested loop gives exactly `Resolve` of the rule context, so the lemmas above apply to it; on success, files and roots have equal length |
| Assets.Empty | src/main/java/com/google/devtools/build/lib/rules/android/AndroidAssets.java:102-104 | two lists, both of length zero |
| Assets.Copy | src/main/java/com/google/devtools/build/lib/rules/android/AndroidAssets.java:109-111 | the copy is equal to the original |
| Assets.ForAarImport | src/main/java/com/google/devtools/build/lib/rules/android/AndroidAssets.java:96-100 | exactly one file, the tree artifact, and one root: its exec path extended by the single segment `assets` |
| Assets.Equals | src/main/java/com/google/devtools/build/lib/rules/android/AndroidAssets.java:131-139 | true exactly when the other object is a collection with the same file sequence and the same root sequence; false for null and other classes |
| Assets.EqualsIsOrderSensitive | src/main/java/com/google/devtools/build/lib/rules/android/AndroidAssets.java:131-139 | swapping two different files keeps the same multiset of files but gives an unequal collection |

## Left out

- `tools/cpp/runfiles/runfiles.h` is not part of this model. It only declares its functions, and their behaviour depends on environment variables and the filesystem.
- The rule context is modelled as plain inputs. These are the two "explicitly specified" flags, whether the rule class has an `assets` attribute, the parsed base directory, and the upstream targets. Targets are already filtered to those with a file provider, in attribute order. Attribute lookup, `getPrerequisitesIf`, and the reporting by `attributeError`/`throwWithRuleError` are replaced by an error result.
- `getAssetDir` is not modelled. Parsing a string into a `PathFragment` and normalising it are outside the model: paths arrive already split into segments. `assets_dir` is taken to be a relative path; an absolute one such as `/assets` cannot be expressed.
- The label and package-identifier lookup is not modelled. An artifact carries its package source root directly.
- An artifact lies inside its package, and its exec path ends with its root-relative path. Both are part of the `Artifact` type, so the model has no path for the `relativeTo` failure that the code would raise otherwise.
- Artifact identity is structural equality of the artifact record.
- The order of files within a target is the provider's order, given as a sequence.
- `parse` is left out. It only delegates to `ParsedAndroidAssets`, which is not part of this model.
- `hashCode` is left out. It is a library hash of the two lists.
- The error message texts are left out. The errors carry the attribute names, or the file, the target label and the base directory.
- The getters `getAssets`/`getAssetRoots` are the fields of the `AndroidAssets` datatype. The list-taking constructor is the datatype's constructor.
- Assets.ForAarImport: the tree-artifact argument check is a precondition rather than a thrown `IllegalArgumentException`.
