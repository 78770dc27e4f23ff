/**
 * The part of Rust's `std::path::Path` that `parent_device_from_sysfs_path` uses:
 * `parent()` followed by `file_name()`, for Unix paths written with '/'.
 */
module Paths {
  import opened Wrappers

  /** A component of a Unix `Path`, as `Path::components` yields them. */
  datatype Component = RootDir | CurDir | ParentDir | Normal(name: string)

  predicate NoSlash(s: string) {
    forall i :: 0 <= i < |s| ==> s[i] != '/'
  }

  /** A name `file_name()` can return: non-empty, no separator, neither "." nor "..". */
  predicate IsNormalName(s: string) {
    s != [] && NoSlash(s) && s != "." && s != ".."
  }

  /** The index of the last '/', or -1 when there is none. */
  function LastSlash(s: string): (k: int)
    ensures -1 <= k < |s|
    ensures k >= 0 ==> s[k] == '/'
    ensures forall j :: k < j < |s| ==> s[j] != '/'
  {
    if s == [] then -1
    else if s[|s| - 1] == '/' then |s| - 1
    else LastSlash(s[..|s| - 1])
  }

  /** The text between separators, empty pieces included, left to right. */
  function Pieces(s: string): (ps: seq<string>)
    ensures |ps| >= 1
    ensures forall i :: 0 <= i < |ps| ==> NoSlash(ps[i])
    decreases |s|
  {
    var k := LastSlash(s);
    if k < 0 then [s] else Pieces(s[..k]) + [s[k + 1..]]
  }

  /**
   * The components one piece contributes: the empty first piece of an absolute path is the
   * root; other empty pieces and "." pieces vanish, except a "." that starts a relative path.
   */
  function PieceComponents(piece: string, first: bool, absolute: bool): seq<Component> {
    if first && absolute then [RootDir]
    else if piece == "" then []
    else if piece == "." then (if first then [CurDir] else [])
    else if piece == ".." then [ParentDir]
    else [Normal(piece)]
  }

  function PiecesComponents(ps: seq<string>, absolute: bool): (cs: seq<Component>)
    requires forall i :: 0 <= i < |ps| ==> NoSlash(ps[i])
    ensures forall i :: 0 <= i < |cs| && cs[i].Normal? ==> IsNormalName(cs[i].name)
    ensures absolute && ps != [] ==> cs != [] && cs[0] == RootDir
    ensures forall i :: 0 <= i < |cs| && cs[i].RootDir? ==> i == 0 && absolute
    ensures forall i :: 0 < i < |cs| ==> !cs[i].CurDir?
    decreases |ps|
  {
    if ps == [] then []
    else PiecesComponents(ps[..|ps| - 1], absolute) + PieceComponents(ps[|ps| - 1], |ps| == 1, absolute)
  }

  /**
   * `Path::components`: the root comes first and only for an absolute path, a "." only
   * at the start, and every `Normal` component is a plain name.
   */
  function Components(p: string): (cs: seq<Component>)
    ensures forall i :: 0 <= i < |cs| && cs[i].Normal? ==> IsNormalName(cs[i].name)
    ensures p != [] && p[0] == '/' ==> cs != [] && cs[0] == RootDir
    ensures forall i :: 0 <= i < |cs| && cs[i].RootDir? ==> i == 0 && p != [] && p[0] == '/'
    ensures forall i :: 0 < i < |cs| ==> !cs[i].CurDir?
  {
    PiecesComponents(Pieces(p), p != [] && p[0] == '/')
  }

  /**
   * `p.parent()` and then `file_name()` of that parent: the name of the next-to-last
   * component, when there is one and it is a plain name.
   */
  function ParentFileName(p: string): (r: Option<string>)
    ensures r.Some? ==> IsNormalName(r.value)
  {
    var cs := Components(p);
    if cs == [] || cs[|cs| - 1] == RootDir then None
    else
      var parent := cs[..|cs| - 1];
      if parent != [] && parent[|parent| - 1].Normal? then Some(parent[|parent| - 1].name) else None
  }

  lemma {:induction false} LastSlashAppend(x: string, d: string)
    requires NoSlash(d)
    ensures LastSlash(x + "/" + d) == |x|
  {
    var s := x + "/" + d;
    if d != [] {
      assert s[..|s| - 1] == x + "/" + d[..|d| - 1];
      LastSlashAppend(x, d[..|d| - 1]);
    }
  }

  lemma PiecesAppend(x: string, d: string)
    requires NoSlash(d)
    ensures Pieces(x + "/" + d) == Pieces(x) + [d]
  {
    var s := x + "/" + d;
    LastSlashAppend(x, d);
    assert s[..|x|] == x;
    assert s[|x| + 1..] == d;
  }

  /** Appending a plain name appends one `Normal` component, except after nothing at all. */
  lemma ComponentsAppend(x: string, d: string)
    requires x != [] && IsNormalName(d)
    ensures Components(x + "/" + d) == Components(x) + [Normal(d)]
  {
    var s := x + "/" + d;
    PiecesAppend(x, d);
    assert s[0] == x[0];
    var ps := Pieces(x) + [d];
    assert ps[..|ps| - 1] == Pieces(x);
  }

  /**
   * For a path `.../p/d` whose last two pieces are plain names, the parent's file name is `p`
   * (`nvme0n1` for `../../devices/.../nvme0n1/nvme0n1p1`).
   */
  lemma ParentFileNameOfNested(a: string, p: string, d: string)
    requires a != []
    requires IsNormalName(p) && IsNormalName(d)
    ensures ParentFileName(a + "/" + p + "/" + d) == Some(p)
  {
    ComponentsAppend(a, p);
    ComponentsAppend(a + "/" + p, d);
    var cs := Components(a) + [Normal(p)] + [Normal(d)];
    assert cs[..|cs| - 1] == Components(a) + [Normal(p)];
  }

  /** A single plain name has the empty path as parent, which has no file name. */
  lemma ParentFileNameOfName(d: string)
    requires IsNormalName(d)
    ensures ParentFileName(d) == None
  {
    LastSlashNone(d);
    assert PiecesComponents([d], false) == PiecesComponents([], false) + PieceComponents(d, true, false);
    assert Components(d) == [Normal(d)];
  }

  lemma {:induction false} LastSlashNone(s: string)
    requires NoSlash(s)
    ensures LastSlash(s) == -1
  {
    if s != [] {
      LastSlashNone(s[..|s| - 1]);
    }
  }
}
