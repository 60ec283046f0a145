/** Artifacts as the asset resolution sees them: an artifact with its two path
    representations and the source root of the package that owns it, and a
    contributing target with the files it builds. */
module Artifacts {
  import opened Paths

  type Label = string

  /** A build input or output. `sourceRoot` is the source root of the owning
      label's package; `rootRelativePath` is measured from the artifact's root;
      `execPath` from the execution root, so it also carries the output-root
      and configuration segments. */
  datatype ArtifactInfo = ArtifactInfo(
    owner: Label,
    sourceRoot: Path,
    rootRelativePath: Path,
    execPath: Path,
    isTreeArtifact: bool)

  /** What every artifact satisfies: it lies inside its owner's package (which
      `relativeTo` demands), and its exec path is its root's exec path followed
      by its root-relative path. */
  predicate ValidArtifact(f: ArtifactInfo)
  {
    StartsWith(f.rootRelativePath, f.sourceRoot) && EndsWith(f.execPath, f.rootRelativePath)
  }

  type Artifact = f: ArtifactInfo | ValidArtifact(f) witness ArtifactInfo("", [], [], [], false)

  /** The file's path inside its package: the package source root stripped from
      the root-relative path. */
  function PackageRelativePath(f: Artifact): (r: Path)
    ensures f.sourceRoot + r == f.rootRelativePath
  {
    RelativeTo(f.rootRelativePath, f.sourceRoot)
  }

  /** The exec path and the package-relative path share their trailing segments. */
  lemma ExecPathEndsWithPackageRelativePath(f: Artifact)
    ensures EndsWith(f.execPath, PackageRelativePath(f))
  {
    EndsWithRight(f.execPath, f.sourceRoot, PackageRelativePath(f));
  }

  /** An upstream target of the `assets` attribute that has a file provider, with
      its files to build in the order the provider lists them. */
  datatype Target = Target(name: Label, files: seq<Artifact>)
}
