/** A rule's Android assets: the asset files its `assets` attribute contributes,
    each paired with the asset root under which its asset path begins. */
module Assets {
  import opened Paths
  import opened Artifacts

  const ASSETS_ATTR := "assets"
  const ASSETS_DIR_ATTR := "assets_dir"
  /** The directory inside an AAR's tree artifact that holds its assets. */
  const AAR_ASSETS_SUBDIR := "assets"

  datatype Error =
    /** Exactly one of the two named attributes was given explicitly. */
    | DeclarationMismatch(first: string, second: string)
    /** `file` (a root-relative path), generated by `target`, is not beneath `assetsDir`. */
    | ContainmentViolation(file: Path, target: Label, assetsDir: Path)

  datatype Outcome = Pass | Fail(error: Error)

  datatype Result<T> = Ok(value: T) | Err(error: Error)

  /** The immutable collection: asset files and, index by index, their roots. */
  datatype AndroidAssets = AndroidAssets(assets: seq<Artifact>, assetRoots: seq<Path>)

  /** Files and roots are index-aligned. */
  predicate Paired(x: AndroidAssets)
  {
    |x.assets| == |x.assetRoots|
  }

  /** What the rule context supplies: whether each of the two attributes was
      explicitly specified, whether the rule class has an `assets` attribute at
      all, the parsed `assets_dir` value, and the `assets` prerequisites that
      provide files, in attribute order. */
  datatype RuleContext = RuleContext(
    assetsSpecified: bool,
    assetsDirSpecified: bool,
    hasAssetsAttr: bool,
    assetsDir: Path,
    targets: seq<Target>)

  // ---------------------------------------------------------------------------
  // Validation

  /** `assets` and `assets_dir` must be given together or not at all. */
  function ValidateAssetsAndAssetsDir(assetsSpecified: bool, assetsDirSpecified: bool): (r: Outcome)
    ensures r.Fail? <==> (assetsSpecified && !assetsDirSpecified) || (!assetsSpecified && assetsDirSpecified)
    ensures r.Fail? ==> r.error == DeclarationMismatch(ASSETS_ATTR, ASSETS_DIR_ATTR)
  {
    if assetsSpecified != assetsDirSpecified then Fail(DeclarationMismatch(ASSETS_ATTR, ASSETS_DIR_ATTR)) else Pass
  }

  // ---------------------------------------------------------------------------
  // Per-file containment and root computation

  /** The file's package-relative path starts with the base directory. */
  predicate IsBeneath(f: Artifact, assetsDir: Path)
  {
    StartsWith(PackageRelativePath(f), assetsDir)
  }

  /** Every file of `cs` is beneath the base directory. */
  predicate AllBeneath(cs: seq<Contribution>, assetsDir: Path)
  {
    forall k :: 0 <= k < |cs| ==> IsBeneath(cs[k].file, assetsDir)
  }

  /** The file's path below the base directory. */
  function RelativeAssetPath(f: Artifact, assetsDir: Path): (r: Path)
    requires IsBeneath(f, assetsDir)
    ensures assetsDir + r == PackageRelativePath(f)
  {
    RelativeTo(PackageRelativePath(f), assetsDir)
  }

  /** The exec path truncated by as many segments as the path below the base
      directory has. */
  function AssetRoot(f: Artifact, assetsDir: Path): (root: Path)
    requires IsBeneath(f, assetsDir)
    ensures |root| == |f.execPath| - |RelativeAssetPath(f, assetsDir)|
    ensures StartsWith(f.execPath, root)
  {
    var relativePath := RelativeAssetPath(f, assetsDir);
    ExecPathEndsWithPackageRelativePath(f);
    SubFragment(f.execPath, 0, |f.execPath| - |relativePath|)
  }

  /** Root round trip: the root followed by the path below the base directory
      is the exec path, so stripping the root from the exec path gives that
      path back. */
  lemma AssetRootRoundTrip(f: Artifact, assetsDir: Path)
    requires IsBeneath(f, assetsDir)
    ensures AssetRoot(f, assetsDir) + RelativeAssetPath(f, assetsDir) == f.execPath
    ensures RelativeTo(f.execPath, AssetRoot(f, assetsDir)) == RelativeAssetPath(f, assetsDir)
  {
    var e, root, rel := f.execPath, AssetRoot(f, assetsDir), RelativeAssetPath(f, assetsDir);
    ExecPathEndsWithPackageRelativePath(f);
    EndsWithRight(e, assetsDir, rel);
    EndsWithSplit(e, rel);
    assert root == e[..|e| - |rel|];
    RelativeToConcat(root, rel);
  }

  /** A file that is the base directory itself has the whole exec path as root,
      and the root is a strict prefix of the exec path exactly when the file
      lies strictly below the base directory. */
  lemma AssetRootStrictness(f: Artifact, assetsDir: Path)
    requires IsBeneath(f, assetsDir)
    ensures PackageRelativePath(f) == assetsDir ==> RelativeAssetPath(f, assetsDir) == [] && AssetRoot(f, assetsDir) == f.execPath
    ensures |AssetRoot(f, assetsDir)| < |f.execPath| <==> |PackageRelativePath(f)| > |assetsDir|
  {
    var root := AssetRoot(f, assetsDir);
    if PackageRelativePath(f) == assetsDir {
      assert root == f.execPath[..|f.execPath|];
    }
  }

  // ---------------------------------------------------------------------------
  // Specification of `from`

  /** One file in iteration order, with the label of the target that generated it. */
  datatype Contribution = Contribution(target: Label, file: Artifact)

  function ContributionsOf(t: Target): (cs: seq<Contribution>)
    ensures |cs| == |t.files|
    ensures forall k :: 0 <= k < |cs| ==> cs[k] == Contribution(t.name, t.files[k])
  {
    seq(|t.files|, k requires 0 <= k < |t.files| => Contribution(t.name, t.files[k]))
  }

  /** All files in iteration order: targets in order, then each target's files in order. */
  function Contributions(targets: seq<Target>): seq<Contribution>
    decreases |targets|
  {
    if targets == [] then [] else Contributions(targets[..|targets| - 1]) + ContributionsOf(targets[|targets| - 1])
  }

  /** The containment error for one file. */
  function Violation(c: Contribution, assetsDir: Path): Error
  {
    ContainmentViolation(c.file.rootRelativePath, c.target, assetsDir)
  }

  /** Resolution of a sequence of files: the collection built from all but the
      last file gains the last file and its root, unless an earlier file already
      failed or the last file is not beneath the base directory. */
  function ResolveAll(cs: seq<Contribution>, assetsDir: Path): Result<AndroidAssets>
    decreases |cs|
  {
    if cs == [] then Ok(Empty())
    else
      var c := cs[|cs| - 1];
      match ResolveAll(cs[..|cs| - 1], assetsDir)
      case Err(e) => Err(e)
      case Ok(acc) =>
        if IsBeneath(c.file, assetsDir) then
          Ok(AndroidAssets(acc.assets + [c.file], acc.assetRoots + [AssetRoot(c.file, assetsDir)]))
        else
          Err(Violation(c, assetsDir))
  }

  /** The whole of `from`: validation, the missing-attribute shortcut, and
      resolution of every contributed file. */
  function Resolve(ctx: RuleContext): Result<AndroidAssets>
  {
    match ValidateAssetsAndAssetsDir(ctx.assetsSpecified, ctx.assetsDirSpecified)
    case Fail(e) => Err(e)
    case Pass =>
      if !ctx.hasAssetsAttr then Ok(Empty())
      else ResolveAll(Contributions(ctx.targets), ctx.assetsDir)
  }

  // ---------------------------------------------------------------------------
  // Lemmas about the specification

  /** Iteration order: the files of `ts + us` are those of `ts` followed by those of `us`. */
  lemma {:induction false} ContributionsAppend(ts: seq<Target>, us: seq<Target>)
    ensures Contributions(ts + us) == Contributions(ts) + Contributions(us)
    decreases |us|
  {
    if us != [] {
      var n := |us| - 1;
      assert (ts + us)[..|ts + us| - 1] == ts + us[..n];
      ContributionsAppend(ts, us[..n]);
    } else {
      assert ts + us == ts;
    }
  }

  /** The targets up to `i + 1` contribute those up to `i`, then target `i`. */
  lemma ContributionsSnoc(ts: seq<Target>, i: nat)
    requires i < |ts|
    ensures Contributions(ts[..i + 1]) == Contributions(ts[..i]) + ContributionsOf(ts[i])
  {
    assert ts[..i + 1][..i] == ts[..i];
    assert ts[..i + 1][i] == ts[i];
  }

  /** The files of a target list are those of a prefix, then those of the rest. */
  lemma ContributionsSplit(ts: seq<Target>, i: nat)
    requires i <= |ts|
    ensures Contributions(ts) == Contributions(ts[..i]) + Contributions(ts[i..])
  {
    assert ts == ts[..i] + ts[i..];
    ContributionsAppend(ts[..i], ts[i..]);
  }

  /** Resolution succeeds exactly when every file is beneath the base directory. */
  lemma {:induction false} ResolveAllOk(cs: seq<Contribution>, assetsDir: Path)
    ensures ResolveAll(cs, assetsDir).Ok? <==> AllBeneath(cs, assetsDir)
    decreases |cs|
  {
    if cs != [] {
      var init := cs[..|cs| - 1];
      ResolveAllOk(init, assetsDir);
      assert forall k :: 0 <= k < |init| ==> init[k] == cs[k];
    }
  }

  /** Index pairing: on success there is one file and one root per input file,
      and file `k` and root `k` both come from the `k`-th input file. */
  lemma {:induction false} ResolveAllPairing(cs: seq<Contribution>, assetsDir: Path)
    requires ResolveAll(cs, assetsDir).Ok?
    ensures var x := ResolveAll(cs, assetsDir).value;
      && |x.assets| == |cs| && |x.assetRoots| == |cs|
      && forall k :: 0 <= k < |cs| ==>
        && x.assets[k] == cs[k].file
        && IsBeneath(cs[k].file, assetsDir)
        && x.assetRoots[k] == AssetRoot(cs[k].file, assetsDir)
    decreases |cs|
  {
    if cs != [] {
      var init := cs[..|cs| - 1];
      ResolveAllPairing(init, assetsDir);
      assert forall k :: 0 <= k < |init| ==> init[k] == cs[k];
    }
  }

  /** One more file on a successful prefix: it is appended with its root, or its
      containment error is the result. */
  lemma ResolveAllStep(cs: seq<Contribution>, c: Contribution, assetsDir: Path)
    requires ResolveAll(cs, assetsDir).Ok?
    ensures var acc := ResolveAll(cs, assetsDir).value;
      ResolveAll(cs + [c], assetsDir) ==
        if IsBeneath(c.file, assetsDir)
        then Ok(AndroidAssets(acc.assets + [c.file], acc.assetRoots + [AssetRoot(c.file, assetsDir)]))
        else Err(Violation(c, assetsDir))
  {
    assert (cs + [c])[..|cs + [c]| - 1] == cs;
  }

  /** Fail-fast: once a prefix of the files fails, no later file changes the outcome. */
  lemma {:induction false} ResolveAllFailFast(cs: seq<Contribution>, rest: seq<Contribution>, assetsDir: Path)
    requires ResolveAll(cs, assetsDir).Err?
    ensures ResolveAll(cs + rest, assetsDir) == ResolveAll(cs, assetsDir)
    decreases |rest|
  {
    if rest == [] {
      assert cs + rest == cs;
    } else {
      var n := |rest| - 1;
      assert (cs + rest)[..|cs + rest| - 1] == cs + rest[..n];
      ResolveAllFailFast(cs, rest[..n], assetsDir);
    }
  }

  /** The first violation wins: when file `k` is the first one not beneath the
      base directory, resolution fails with that file's containment error. */
  lemma ResolveAllFirstViolation(cs: seq<Contribution>, assetsDir: Path, k: nat)
    requires k < |cs| && !IsBeneath(cs[k].file, assetsDir)
    requires forall m :: 0 <= m < k ==> IsBeneath(cs[m].file, assetsDir)
    ensures ResolveAll(cs, assetsDir) == Err(Violation(cs[k], assetsDir))
  {
    var init := cs[..k];
    assert ResolveAll(cs[..k + 1], assetsDir) == Err(Violation(cs[k], assetsDir)) by {
      assert forall m :: 0 <= m < k ==> init[m] == cs[m];
      ResolveAllOk(init, assetsDir);
      assert cs[..k + 1] == init + [cs[k]];
      ResolveAllStep(init, cs[k], assetsDir);
    }
    assert cs == cs[..k + 1] + cs[k + 1..];
    ResolveAllFailFast(cs[..k + 1], cs[k + 1..], assetsDir);
  }

  /** Every failure is a containment error, and it is the error of the first
      file that is not beneath the base directory. */
  lemma {:induction false} ResolveAllError(cs: seq<Contribution>, assetsDir: Path)
    requires ResolveAll(cs, assetsDir).Err?
    ensures exists k ::
      && 0 <= k < |cs| && !IsBeneath(cs[k].file, assetsDir)
      && (forall m :: 0 <= m < k ==> IsBeneath(cs[m].file, assetsDir))
      && ResolveAll(cs, assetsDir).error == Violation(cs[k], assetsDir)
    decreases |cs|
  {
    var init := cs[..|cs| - 1];
    assert forall m :: 0 <= m < |init| ==> init[m] == cs[m];
    if ResolveAll(init, assetsDir).Err? {
      ResolveAllError(init, assetsDir);
      var k :| 0 <= k < |init| && !IsBeneath(init[k].file, assetsDir)
        && (forall m :: 0 <= m < k ==> IsBeneath(init[m].file, assetsDir))
        && ResolveAll(init, assetsDir).error == Violation(init[k], assetsDir);
      assert cs[k] == init[k];
    } else {
      ResolveAllOk(init, assetsDir);
      var k := |cs| - 1;
      assert !IsBeneath(cs[k].file, assetsDir);
    }
  }

  /** The outcome of `from`: it fails with the declaration error exactly when
      one of the two attributes is given without the other; otherwise it
      succeeds exactly when the rule has no `assets` attribute or every
      contributed file is beneath the base directory, and any other failure
      is a containment error. A rule without the attribute gets two empty lists. */
  lemma ResolveOutcome(ctx: RuleContext)
    ensures Resolve(ctx) == Err(DeclarationMismatch(ASSETS_ATTR, ASSETS_DIR_ATTR))
      <==> ctx.assetsSpecified != ctx.assetsDirSpecified
    ensures Resolve(ctx).Ok? <==>
      && ctx.assetsSpecified == ctx.assetsDirSpecified
      && (!ctx.hasAssetsAttr || AllBeneath(Contributions(ctx.targets), ctx.assetsDir))
    ensures Resolve(ctx).Err? && ctx.assetsSpecified == ctx.assetsDirSpecified ==>
      Resolve(ctx).error.ContainmentViolation?
    ensures ctx.assetsSpecified == ctx.assetsDirSpecified && !ctx.hasAssetsAttr ==>
      Resolve(ctx).Ok? && |Resolve(ctx).value.assets| == 0 && |Resolve(ctx).value.assetRoots| == 0
  {
    if ctx.assetsSpecified == ctx.assetsDirSpecified && ctx.hasAssetsAttr {
      var cs := Contributions(ctx.targets);
      ResolveAllOk(cs, ctx.assetsDir);
      if ResolveAll(cs, ctx.assetsDir).Err? {
        ResolveAllError(cs, ctx.assetsDir);
      }
    }
  }

  // ---------------------------------------------------------------------------
  // The operations

  /** The collection with no files and no roots. */
  function Empty(): (r: AndroidAssets)
    ensures Paired(r) && |r.assets| == 0
  {
    AndroidAssets([], [])
  }

  /** The copy constructor: a collection equal to `other`. */
  function Copy(other: AndroidAssets): (r: AndroidAssets)
    ensures Equals(r, OfAndroidAssets(other))
  {
    AndroidAssets(other.assets, other.assetRoots)
  }

  /** The inner loop of `from`: the files of one target, in order, added to
      the collection built from the files before them (`before`), stopping at
      the first file that is not beneath the base directory. */
  method CollectTarget(target: Target, assetsDir: Path, acc: AndroidAssets, ghost before: seq<Contribution>)
    returns (r: Result<AndroidAssets>)
    requires ResolveAll(before, assetsDir) == Ok(acc)
    ensures r == ResolveAll(before + ContributionsOf(target), assetsDir)
  {
    ghost var all := before + ContributionsOf(target);
    var assets, assetRoots := acc.assets, acc.assetRoots;
    // `n` is the position of file `j` among `all`.
    ghost var n := |before|;
    var j := 0;
    assert all[..n] == before;
    while j < |target.files|
      invariant 0 <= j <= |target.files| && n == |before| + j
      invariant ResolveAll(all[..n], assetsDir) == Ok(AndroidAssets(assets, assetRoots))
    {
      var file := target.files[j];
      FileAt(before, target, j);
      assert all[n] == Contribution(target.name, file);
      ResolveAllNext(all, n, assetsDir);
      var packageRelativePath := PackageRelativePath(file);
      if StartsWith(packageRelativePath, assetsDir) {
        var relativePath := RelativeTo(packageRelativePath, assetsDir);
        var path := file.execPath;
        var root := SubFragment(path, 0, |path| - |relativePath|);
        assert root == AssetRoot(file, assetsDir);
        assetRoots := assetRoots + [root];
      } else {
        return Err(ContainmentViolation(file.rootRelativePath, target.name, assetsDir));
      }
      assets := assets + [file];
      j := j + 1;
      n := n + 1;
    }
    assert all[..n] == all;
    return Ok(AndroidAssets(assets, assetRoots));
  }

  /** File `j` of a target sits at position `|before| + j` of the files after `before`. */
  lemma FileAt(before: seq<Contribution>, target: Target, j: nat)
    requires j < |target.files|
    ensures (before + ContributionsOf(target))[|before| + j] == Contribution(target.name, target.files[j])
  {
  }

  /** File `n` on top of a successful prefix, stated for the whole sequence: it
      either extends the prefix's collection with itself and its root, or its
      containment error is the result for the whole sequence. */
  lemma ResolveAllNext(all: seq<Contribution>, n: nat, assetsDir: Path)
    requires n < |all| && ResolveAll(all[..n], assetsDir).Ok?
    ensures var acc, c := ResolveAll(all[..n], assetsDir).value, all[n];
      && (IsBeneath(c.file, assetsDir) ==>
            ResolveAll(all[..n + 1], assetsDir) == Ok(AndroidAssets(acc.assets + [c.file], acc.assetRoots + [AssetRoot(c.file, assetsDir)])))
      && (!IsBeneath(c.file, assetsDir) ==> ResolveAll(all, assetsDir) == Err(Violation(c, assetsDir)))
  {
    assert all[..n + 1] == all[..n] + [all[n]];
    ResolveAllStep(all[..n], all[n], assetsDir);
    if !IsBeneath(all[n].file, assetsDir) {
      assert all == all[..n + 1] + all[n + 1..];
      ResolveAllFailFast(all[..n + 1], all[n + 1..], assetsDir);
    }
  }

  /** Collects the rule's assets: validates the attribute pairing, then walks the
      targets in order, collecting each target's files, and stops at the first
      file that is not beneath the base directory. */
  method From(ctx: RuleContext) returns (r: Result<AndroidAssets>)
    ensures r == Resolve(ctx)
    ensures r.Ok? ==> Paired(r.value)
  {
    var validation := ValidateAssetsAndAssetsDir(ctx.assetsSpecified, ctx.assetsDirSpecified);
    if validation.Fail? {
      return Err(validation.error);
    }
    if !ctx.hasAssetsAttr {
      return Ok(Empty());
    }
    var assetsDir := ctx.assetsDir;
    var assets: seq<Artifact> := [];
    var assetRoots: seq<Path> := [];
    var i := 0;
    while i < |ctx.targets|
      invariant 0 <= i <= |ctx.targets|
      invariant ResolveAll(Contributions(ctx.targets[..i]), assetsDir) == Ok(AndroidAssets(assets, assetRoots))
    {
      var target := ctx.targets[i];
      ContributionsSnoc(ctx.targets, i);
      var collected := CollectTarget(target, assetsDir, AndroidAssets(assets, assetRoots), Contributions(ctx.targets[..i]));
      if collected.Err? {
        ContributionsSplit(ctx.targets, i + 1);
        ResolveAllFailFast(Contributions(ctx.targets[..i + 1]), Contributions(ctx.targets[i + 1..]), assetsDir);
        return collected;
      }
      assets, assetRoots := collected.value.assets, collected.value.assetRoots;
      i := i + 1;
    }
    assert ctx.targets[..i] == ctx.targets;
    ResolveAllPairing(Contributions(ctx.targets), assetsDir);
    return Ok(AndroidAssets(assets, assetRoots));
  }

  /** The collection for an AAR import, whose individual assets are unknown at
      analysis time: the tree artifact itself, rooted at its `assets` child. */
  function ForAarImport(assetsDir: Artifact): (r: AndroidAssets)
    requires assetsDir.isTreeArtifact
    ensures Paired(r) && r.assets == [assetsDir]
    ensures var root := r.assetRoots[0];
      && |root| == |assetsDir.execPath| + 1
      && StartsWith(root, assetsDir.execPath)
      && root[|assetsDir.execPath|] == AAR_ASSETS_SUBDIR
  {
    AndroidAssets([assetsDir], [Child(assetsDir.execPath, AAR_ASSETS_SUBDIR)])
  }

  // ---------------------------------------------------------------------------
  // Equality

  /** The argument of `equals`: null, an object of another class, or another collection. */
  datatype Object = Null | OtherClass | OfAndroidAssets(value: AndroidAssets)

  /** Two collections are equal when their file lists are equal and their root
      lists are equal, element by element and in order. */
  function Equals(x: AndroidAssets, other: Object): (r: bool)
    ensures r <==> other == OfAndroidAssets(x)
  {
    match other
    case OfAndroidAssets(o) => x.assets == o.assets && x.assetRoots == o.assetRoots
    case _ => false
  }

  /** Equality is order-sensitive: swapping two different files leaves the same
      multiset of files but gives an unequal collection. */
  lemma EqualsIsOrderSensitive(x: AndroidAssets, i: nat, j: nat)
    requires i < j < |x.assets| && x.assets[i] != x.assets[j]
    ensures var swapped := x.assets[i := x.assets[j]][j := x.assets[i]];
      && multiset(swapped) == multiset(x.assets)
      && !Equals(x, OfAndroidAssets(AndroidAssets(swapped, x.assetRoots)))
  {
    var swapped := x.assets[i := x.assets[j]][j := x.assets[i]];
    assert swapped[i] != x.assets[i];
  }
}
