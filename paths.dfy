/**
 * Module-id path helpers: the package-root stripping that both the trace script
 * and the bundle-data script apply to Rollup module ids, and Node's
 * `path.basename(p, ext)` on POSIX paths.
 */
module Paths {
  import opened Strings

  /**
   * `relativePath(id)`: an id under the package root loses the root and the one
   * separator character after it (JavaScript's `slice` yields "" when the id is the
   * root itself); any other id is returned unchanged.
   */
  function RelativePath(id: string, packageRoot: string): (r: string)
    ensures !StartsWith(id, packageRoot) ==> r == id
    ensures StartsWith(id, packageRoot) ==>
              |r| == (if |id| > |packageRoot| then |id| - |packageRoot| - 1 else 0)
    ensures |r| <= |id| && r == id[|id| - |r|..]
  {
    if StartsWith(id, packageRoot) then
      if |packageRoot| + 1 <= |id| then id[|packageRoot| + 1..] else ""
    else
      id
  }

  /** Prefixing the root and a separator undoes the stripping. */
  lemma RelativePathRoundTrip(id: string, packageRoot: string)
    requires StartsWith(id, packageRoot + "/")
    ensures packageRoot + "/" + RelativePath(id, packageRoot) == id
  {
    assert id[..|packageRoot|] == packageRoot;
    assert id[..|packageRoot| + 1] == packageRoot + "/";
    assert id == id[..|packageRoot| + 1] + id[|packageRoot| + 1..];
  }

  /** `p` with every trailing '/' removed. */
  function TrimTrailingSlashes(p: string): (r: string)
    ensures r <= p
    ensures r == [] || r[|r| - 1] != '/'
    ensures forall i :: |r| <= i < |p| ==> p[i] == '/'
  {
    if |p| > 0 && p[|p| - 1] == '/' then TrimTrailingSlashes(p[..|p| - 1]) else p
  }

  /** The text after the last '/' of `p` (all of `p` when it has none). */
  function LastSegment(p: string): (r: string)
    ensures |r| <= |p| && r == p[|p| - |r|..]
    ensures '/' !in r
    ensures |r| < |p| ==> p[|p| - |r| - 1] == '/'
  {
    if |p| == 0 then ""
    else if p[|p| - 1] == '/' then ""
    else
      var init := LastSegment(p[..|p| - 1]);
      assert p[..|p| - 1][|p| - 1 - |init|..] == p[|p| - 1 - |init|..|p| - 1];
      init + [p[|p| - 1]]
  }

  /**
   * Node's POSIX `path.basename(p, ext)` for a non-empty `ext`. When `ext` is no longer
   * than `p`: `p` equal to `ext` gives ""; otherwise the last segment is matched against
   * the end of `ext` from its last character. A full match on a longer segment removes
   * `ext`; a mismatch keeps the segment; a segment that runs out while still matching
   * (it is a proper tail of `ext`, or empty) ends the slice at the end of `p`, so the
   * trailing separators are kept. When `ext` is longer than `p` it is ignored.
   */
  function Basename(p: string, ext: string): (r: string)
    requires |ext| > 0
    ensures |ext| <= |p| && p == ext ==> r == ""
    ensures '/' in r ==> |ext| <= |p| && |r| <= |p| && r == p[|p| - |r|..] && p[|p| - 1] == '/'
  {
    var trimmed := TrimTrailingSlashes(p);
    BasenameOfParts(p, |trimmed|, LastSegment(trimmed), ext)
  }

  /** The choice `path.basename` makes once the trailing separators and the last segment are known. */
  function BasenameOfParts(p: string, trimmedLength: nat, base: string, ext: string): string
    requires |base| <= trimmedLength <= |p|
  {
    if |ext| <= |p| then
      if p == ext then ""
      else if |base| < |ext| && base == ext[|ext| - |base|..] then p[trimmedLength - |base|..]
      else if |base| > |ext| && base[|base| - |ext|..] == ext then base[..|base| - |ext|]
      else base
    else
      base
  }

  /**
   * For a path that does not end in a separator (and is not `ext` itself) the base name is
   * its last segment, without `ext` exactly when the segment is longer than `ext` and ends
   * with it.
   */
  lemma BasenameOfLastSegment(p: string, ext: string)
    requires |ext| > 0 && p != ext && (p == [] || p[|p| - 1] != '/')
    ensures Basename(p, ext) == WithoutExt(LastSegment(p), ext)
  {
    TrimUntrailed(p);
    PartsOfUntrimmed(p, LastSegment(p), ext);
  }

  lemma TrimUntrailed(p: string)
    requires p == [] || p[|p| - 1] != '/'
    ensures TrimTrailingSlashes(p) == p
  {
  }

  lemma PartsOfUntrimmed(p: string, seg: string, ext: string)
    requires p != ext && |seg| <= |p| && seg == p[|p| - |seg|..]
    ensures BasenameOfParts(p, |p|, seg, ext) == WithoutExt(seg, ext)
  {
  }

  /** A segment without `ext` when it is longer than `ext` and ends with it; unchanged otherwise. */
  function WithoutExt(seg: string, ext: string): string {
    if |seg| > |ext| && seg[|seg| - |ext|..] == ext then seg[..|seg| - |ext|] else seg
  }

  /** The last segment of a path is what follows its last separator. */
  lemma {:induction false} LastSegmentAfter(dir: string, name: string)
    requires '/' !in name
    ensures LastSegment(dir + "/" + name) == name
    decreases |name|
  {
    var p := dir + "/" + name;
    if name != [] {
      assert p[..|p| - 1] == dir + "/" + name[..|name| - 1];
      LastSegmentAfter(dir, name[..|name| - 1]);
      assert name[..|name| - 1] + [name[|name| - 1]] == name;
    }
  }

  /** A last segment that is a proper tail of `ext` keeps the trailing separator. */
  lemma BasenameKeepsTrailingSeparator()
    ensures Basename("a/js/", ".js") == "js/"
  {
    assert "a/js/"[..4] == "a/js" == "a" + "/" + "js";
    LastSegmentAfter("a", "js");
    assert ".js"[1..] == "js";
  }

  /** A segment that ends with `ext` loses it and the trailing separator. */
  lemma BasenameDropsTrailingSeparator()
    ensures Basename("a/x.js/", ".js") == "x"
  {
    assert "a/x.js/"[..6] == "a/x.js" == "a" + "/" + "x.js";
    LastSegmentAfter("a", "x.js");
    assert Basename("a/x.js/", ".js") == BasenameOfParts("a/x.js/", 6, "x.js", ".js");
    assert "x.js"[1..] == ".js" && "x.js"[..1] == "x";
  }
}
