/** Repo-relative paths. A path is the sequence of its components; the empty
    sequence is the garden root, as the empty `PathBuf` is in the source. */
module Paths {

  datatype Option<+T> = None | Some(value: T)

  type Name = string
  type Path = seq<Name>
  newtype byte = b: int | 0 <= b < 256
  type Bytes = seq<byte>

  /** `path.starts_with(prefix)`: component-wise, so "projects-x" is not under "projects". */
  predicate StartsWith(path: Path, prefix: Path) {
    prefix <= path
  }

  /** `path` lies strictly under `prefix`. */
  predicate StrictlyUnder(path: Path, prefix: Path) {
    prefix < path
  }

  /** `path.strip_prefix(prefix)` for a path that starts with the prefix. */
  function Strip(path: Path, prefix: Path): (rel: Path)
    requires StartsWith(path, prefix)
    ensures prefix + rel == path
  {
    path[|prefix|..]
  }

  /** `path.parent()` is `dir`; the root has no parent. */
  predicate IsParentOf(dir: Path, path: Path) {
    path != [] && path[..|path| - 1] == dir
  }

  /** Neither path is at or under the other. */
  predicate Disjoint(p: Path, q: Path) {
    !StartsWith(p, q) && !StartsWith(q, p)
  }

  /** Two prefixes of one path are comparable. */
  lemma PrefixesCompare(p: Path, q: Path, whole: Path)
    requires StartsWith(whole, p) && StartsWith(whole, q)
    ensures StartsWith(p, q) || StartsWith(q, p)
  {
    assert p == whole[..|p|] && q == whole[..|q|];
    if |p| <= |q| {
      assert p == q[..|p|];
    } else {
      assert q == p[..|q|];
    }
  }

  lemma PrefixOf(path: Path, k: nat)
    requires k <= |path|
    ensures StartsWith(path, path[..k])
  {
  }

  lemma PrefixTransitive(p: Path, q: Path, r: Path)
    requires StartsWith(p, q) && StartsWith(q, r)
    ensures StartsWith(p, r)
  {
  }

  lemma StripAppend(prefix: Path, rel: Path)
    ensures StartsWith(prefix + rel, prefix)
    ensures Strip(prefix + rel, prefix) == rel
  {
  }
}
