/** Relative path fragments, as the asset resolution uses them: a path is its
    sequence of segments, already split and normalised. The empty sequence is
    the empty fragment. */
module Paths {

  type Path = seq<string>

  /** A name that `getChild` accepts as one new segment. */
  predicate IsSegment(name: string)
  {
    name != "" && name != "." && name != ".." && '/' !in name
  }

  /** Segment-wise prefix test: the first |prefix| segments of `p` are `prefix`. */
  predicate StartsWith(p: Path, prefix: Path)
  {
    |prefix| <= |p| && p[..|prefix|] == prefix
  }

  /** Reference definition of the prefix test, comparing one segment at a time
      from the front. */
  predicate SegmentsMatch(p: Path, prefix: Path)
    decreases |prefix|
  {
    prefix == [] || (p != [] && p[0] == prefix[0] && SegmentsMatch(p[1..], prefix[1..]))
  }

  lemma {:induction false} StartsWithIsSegmentwise(p: Path, prefix: Path)
    ensures StartsWith(p, prefix) <==> SegmentsMatch(p, prefix)
    decreases |prefix|
  {
    if prefix != [] && p != [] {
      StartsWithIsSegmentwise(p[1..], prefix[1..]);
      if StartsWith(p, prefix) {
        assert p[1..][..|prefix| - 1] == p[..|prefix|][1..];
      }
    }
  }

  /** A concatenation starts with its left part. */
  lemma StartsWithConcat(a: Path, b: Path)
    ensures StartsWith(a + b, a)
  {
    assert (a + b)[..|a|] == a;
  }

  /** `p` with the leading segments `base` removed (`relativeTo`). */
  function RelativeTo(p: Path, base: Path): (r: Path)
    requires StartsWith(p, base)
    ensures base + r == p
    ensures |r| == |p| - |base|
  {
    assert p == p[..|base|] + p[|base|..];
    p[|base|..]
  }

  /** Stripping a prefix that was just prepended gives back the suffix. */
  lemma {:induction false} RelativeToConcat(base: Path, rest: Path)
    ensures StartsWith(base + rest, base)
    ensures RelativeTo(base + rest, base) == rest
  {
    StartsWithConcat(base, rest);
    var r := RelativeTo(base + rest, base);
    assert base + r == base + rest;
    assert r == (base + r)[|base|..] == (base + rest)[|base|..] == rest;
  }

  /** Segments `begin` (inclusive) to `end` (exclusive) of `p` (`subFragment`). */
  function SubFragment(p: Path, begin: nat, end: nat): (r: Path)
    requires begin <= end <= |p|
    ensures |r| == end - begin
    ensures forall k :: 0 <= k < |r| ==> r[k] == p[begin + k]
  {
    p[begin..end]
  }

  /** `p` extended by one more segment (`getChild`). */
  function Child(p: Path, name: string): (r: Path)
    requires IsSegment(name)
    ensures |r| == |p| + 1
    ensures StartsWith(r, p) && r[|p|] == name
  {
    assert (p + [name])[..|p|] == p;
    p + [name]
  }

  /** Suffix test: the last |suffix| segments of `p` are `suffix`. */
  predicate EndsWith(p: Path, suffix: Path)
  {
    |suffix| <= |p| && p[|p| - |suffix|..] == suffix
  }

  /** A path that ends with `a + b` ends with `b`. */
  lemma EndsWithRight(p: Path, a: Path, b: Path)
    requires EndsWith(p, a + b)
    ensures EndsWith(p, b)
  {
    assert p[|p| - |b|..] == p[|p| - |a + b|..][|a|..];
    assert (a + b)[|a|..] == b;
  }

  /** A path is what precedes a suffix followed by the suffix. */
  lemma EndsWithSplit(p: Path, suffix: Path)
    requires EndsWith(p, suffix)
    ensures p[..|p| - |suffix|] + suffix == p
  {
    assert p == p[..|p| - |suffix|] + p[|p| - |suffix|..];
  }
}
