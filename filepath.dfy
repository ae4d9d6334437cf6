/**
 * filepath.Base on a Unix system, as CreateArchive uses it to name entries:
 * trailing slashes are dropped, then everything up to the last slash; an
 * empty path gives "." and a path of slashes only gives "/".
 */
module FilePath {
  import opened Bytes

  const Slash: byte := '/' as byte
  const Dot: byte := '.' as byte

  /** The path without its trailing slashes. */
  function TrimTrailingSlashes(p: seq<byte>): (r: seq<byte>)
    ensures |r| <= |p| && r == p[..|r|]
    ensures r == [] || r[|r| - 1] != Slash
    ensures forall k | |r| <= k < |p| :: p[k] == Slash
  {
    if p == [] || p[|p| - 1] != Slash then p else TrimTrailingSlashes(p[..|p| - 1])
  }

  /** What follows the last slash; all of `p` when it has none. */
  function LastElement(p: seq<byte>): (r: seq<byte>)
    ensures |r| <= |p| && r == p[|p| - |r|..]
    ensures Slash !in r
    ensures |r| < |p| ==> p[|p| - |r| - 1] == Slash
  {
    if p == [] || p[|p| - 1] == Slash then []
    else LastElement(p[..|p| - 1]) + [p[|p| - 1]]
  }

  /** filepath.Base */
  function Base(path: seq<byte>): (r: seq<byte>)
    ensures r != []
    ensures r == [Slash] || Slash !in r
  {
    if path == [] then [Dot]
    else
      var trimmed := TrimTrailingSlashes(path);
      var last := LastElement(trimmed);
      if last == [] then [Slash] else last
  }

  /**
   * For a path with a byte other than a slash, Base is its last element
   * (slash-free by LastElement's contract) and is not empty.
   */
  lemma BaseIsLastElement(path: seq<byte>, i: nat)
    requires i < |path| && path[i] != Slash
    ensures Base(path) == LastElement(TrimTrailingSlashes(path)) != []
  {
    var t := TrimTrailingSlashes(path);
    assert i < |t|;
    assert t[|t| - 1] != Slash;
  }
}
