/** Paths after cleaning, and the relative-path arithmetic the library uses to
    re-root a walked remote path onto the local destination directory. */
module Paths {
  import opened Basics

  /** One component of a cleaned path: never empty, never "." or "..", and
      free of the separator. */
  type Name = s: string | s != "" && s != "." && s != ".." && '/' !in s witness "a"

  /** A cleaned path. An absolute path has no leading ".." (cleaning drops
      ".." at the root); a relative path is `ups` times ".." followed by
      names, and `Relative(0, [])` is ".". Every cleaned path string has
      exactly one such form, so cleaning an already cleaned path is the
      identity. */
  datatype Path = Absolute(parts: seq<Name>) | Relative(ups: nat, parts: seq<Name>)

  /** The number of leading ".." components. */
  function Ups(p: Path): nat {
    if p.Relative? then p.ups else 0
  }

  /** `p` followed by the components of `suffix`. */
  function Extend(p: Path, suffix: seq<Name>): Path {
    p.(parts := p.parts + suffix)
  }

  /** The first `k` names of `p`. */
  function Prefix(p: Path, k: nat): Path
    requires k <= |p.parts|
  {
    p.(parts := p.parts[..k])
  }

  /** The directory holding `p`. */
  function Parent(p: Path): Path
    requires |p.parts| > 0
  {
    Prefix(p, |p.parts| - 1)
  }

  /** `p` is `root` itself or lies below it. */
  predicate Under(root: Path, p: Path) {
    p.Absolute? == root.Absolute? && Ups(p) == Ups(root) && root.parts <= p.parts
  }

  /** The part of `p` below `root`. */
  function Suffix(root: Path, p: Path): seq<Name>
    requires Under(root, p)
  {
    p.parts[|root.parts|..]
  }

  /** Length of the longest common prefix of two name sequences. */
  function CommonPrefix(a: seq<Name>, b: seq<Name>): (k: nat)
    ensures k <= |a| && k <= |b|
    ensures a[..k] == b[..k]
    ensures k < |a| && k < |b| ==> a[k] != b[k]
    decreases |a|
  {
    if |a| == 0 || |b| == 0 || a[0] != b[0] then 0
    else
      var k := 1 + CommonPrefix(a[1..], b[1..]);
      assert a[..k] == [a[0]] + a[1..][..k - 1];
      assert b[..k] == [b[0]] + b[1..][..k - 1];
      k
  }

  /** Lexical join followed by cleaning: each leading ".." of `rel` removes
      one name of `dir`; beyond the names of `dir` a ".." is dropped at the
      root of an absolute path and kept in a relative one. */
  function Join(dir: Path, rel: Path): Path
    requires rel.Relative?
  {
    var pop := if rel.ups <= |dir.parts| then rel.ups else |dir.parts|;
    var kept := dir.parts[..|dir.parts| - pop] + rel.parts;
    if dir.Absolute? then Absolute(kept) else Relative(dir.ups + (rel.ups - pop), kept)
  }

  /** The relative path from `base` to `targ`, component-wise on cleaned
      paths. It fails when one path is absolute and the other is not, and
      when `base` climbs higher (more leading "..") than `targ`: the first
      component where they differ would then be a ".." of `base`. On
      success, joining the result onto `base` gives back `targ`. */
  function Rel(base: Path, targ: Path): (r: Option<Path>)
    ensures r.Some? <==> base.Absolute? == targ.Absolute? && Ups(base) <= Ups(targ)
    ensures r.Some? ==> r.value.Relative? && Join(base, r.value) == targ
  {
    if base.Absolute? != targ.Absolute? || Ups(base) > Ups(targ) then None
    else if Ups(base) < Ups(targ) then
      var r := Relative(|base.parts| + Ups(targ) - Ups(base), targ.parts);
      assert base.parts[..0] + targ.parts == targ.parts;
      Some(r)
    else
      var k := CommonPrefix(base.parts, targ.parts);
      var r := Relative(|base.parts| - k, targ.parts[k..]);
      assert base.parts[..k] + targ.parts[k..] == targ.parts;
      Some(r)
  }

  /** Re-roots a walked remote path: its path relative to the remote root,
      joined onto the local root. `None` is the failed case, where the
      library's helper returns the empty path together with an error. */
  function LocalFilepath(localPath: Path, remotePath: Path, remoteFull: Path): (r: Option<Path>)
    ensures r.Some? <==> remoteFull.Absolute? == remotePath.Absolute? && Ups(remotePath) <= Ups(remoteFull)
    ensures Under(remotePath, remoteFull) ==> r == Some(Extend(localPath, Suffix(remotePath, remoteFull)))
  {
    match Rel(remotePath, remoteFull)
    case None => None
    case Some(rel) =>
      var r := Some(Join(localPath, rel));
      assert Under(remotePath, remoteFull) ==> r == Some(Extend(localPath, Suffix(remotePath, remoteFull))) by {
        if Under(remotePath, remoteFull) {
          var s := Suffix(remotePath, remoteFull);
          assert Extend(remotePath, s) == remoteFull;
          RelOfExtension(remotePath, s);
          JoinDescends(localPath, s);
        }
      }
      r
  }

  /** Relative path of a path below `base`: no "..", just the suffix. */
  lemma RelOfExtension(base: Path, suffix: seq<Name>)
    ensures Rel(base, Extend(base, suffix)) == Some(Relative(0, suffix))
  {
    var targ := Extend(base, suffix);
    assert targ.parts[..|base.parts|] == base.parts;
    var k := CommonPrefix(base.parts, targ.parts);
    assert k == |base.parts|;
    assert targ.parts[k..] == suffix;
  }

  /** Joining a relative path without ".." appends its names. */
  lemma JoinDescends(dir: Path, suffix: seq<Name>)
    ensures Join(dir, Relative(0, suffix)) == Extend(dir, suffix)
  {
    assert dir.parts[..|dir.parts|] == dir.parts;
  }

  /** Joining keeps the kind of `dir`; `rel`'s names go below the ancestor
      of `dir` that its ".." components climb to. Climbing past the first
      name stops at the root of an absolute path and keeps the surplus
      ".." in a relative one. */
  lemma JoinClimbs(dir: Path, rel: Path)
    requires rel.Relative?
    ensures Join(dir, rel).Absolute? == dir.Absolute?
    ensures rel.ups <= |dir.parts| ==> Join(dir, rel) == Extend(Prefix(dir, |dir.parts| - rel.ups), rel.parts)
    ensures dir.Absolute? && rel.ups >= |dir.parts| ==> Join(dir, rel) == Absolute(rel.parts)
    ensures dir.Relative? && rel.ups >= |dir.parts| ==> Join(dir, rel) == Relative(dir.ups + rel.ups - |dir.parts|, rel.parts)
  {
  }

  /** The walk root itself lands on the local root. */
  lemma RerootRoot(localPath: Path, remotePath: Path)
    ensures LocalFilepath(localPath, remotePath, remotePath) == Some(localPath)
  {
    assert Suffix(remotePath, remotePath) == [];
    assert Extend(localPath, []) == localPath;
  }

  /** Re-rooting from the remote root to the local root and back again gives
      the walked path back. */
  lemma RerootRoundTrip(localPath: Path, remotePath: Path, p: Path)
    requires Under(remotePath, p)
    ensures var q := LocalFilepath(localPath, remotePath, p);
            q.Some? && Under(localPath, q.value) && LocalFilepath(remotePath, localPath, q.value) == Some(p)
  {
    var s := Suffix(remotePath, p);
    var q := Extend(localPath, s);
    assert q.parts[..|localPath.parts|] == localPath.parts;
    assert Suffix(localPath, q) == s;
    assert Extend(remotePath, s) == p;
  }

  /** Distinct walked paths below the remote root land on distinct local paths. */
  lemma RerootInjective(localPath: Path, remotePath: Path, p: Path, q: Path)
    requires Under(remotePath, p) && Under(remotePath, q) && p != q
    ensures LocalFilepath(localPath, remotePath, p) != LocalFilepath(localPath, remotePath, q)
  {
    var sp, sq := Suffix(remotePath, p), Suffix(remotePath, q);
    assert p.parts == remotePath.parts + sp;
    assert q.parts == remotePath.parts + sq;
    assert (localPath.parts + sp)[|localPath.parts|..] == sp;
    assert (localPath.parts + sq)[|localPath.parts|..] == sq;
  }

  /** Re-rooting keeps the shape of the tree: the first `|remotePath.parts| + j`
      names of a walked path land on the first `|localPath.parts| + j` names
      of its local counterpart. */
  lemma RerootPrefix(localPath: Path, remotePath: Path, p: Path, j: nat)
    requires Under(remotePath, p) && |remotePath.parts| + j <= |p.parts|
    ensures Under(remotePath, Prefix(p, |remotePath.parts| + j))
    ensures var t := LocalFilepath(localPath, remotePath, p).value;
            |localPath.parts| + j <= |t.parts| &&
            LocalFilepath(localPath, remotePath, Prefix(p, |remotePath.parts| + j)) == Some(Prefix(t, |localPath.parts| + j))
  {
    var a := Prefix(p, |remotePath.parts| + j);
    assert a.parts[..|remotePath.parts|] == remotePath.parts;
    var s := Suffix(remotePath, p);
    assert Suffix(remotePath, a) == s[..j];
    var t := Extend(localPath, s);
    assert t.parts[..|localPath.parts| + j] == localPath.parts + s[..j];
  }
}
