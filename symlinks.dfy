/** Re-targeting of a symbolic link that is mirrored from a source tree into a
    destination tree (`_mapped_symlink_target`), with `os.path.relpath` written out. */
module Symlinks {
  import opened Paths

  /** Length of the longest common prefix of two paths (`os.path.commonprefix` on
      component lists). */
  function CommonLen(a: Path, b: Path): (n: nat)
    ensures n <= |a| && n <= |b|
    ensures a[..n] == b[..n]
    ensures n == |a| || n == |b| || a[n] != b[n]
  {
    if a == [] || b == [] || a[0] != b[0] then 0
    else
      var m := CommonLen(a[1..], b[1..]);
      assert a[..m + 1] == [a[0]] + a[1..][..m];
      assert b[..m + 1] == [b[0]] + b[1..][..m];
      m + 1
  }

  /** The components of `os.path.relpath(path, start)` for absolute `path` and `start`:
      both are normalised, the shared leading components dropped, and one ".." written
      per component of `start` left over. */
  function RelSegs(path: Path, start: Path): seq<string> {
    var t := Norm([], path);
    var s := Norm([], start);
    var i := CommonLen(t, s);
    Ups(|s| - i) + t[i..]
  }

  /** `os.path.relpath(path, start)`: "." when both name the same place. */
  function RelPath(path: Path, start: Path): string {
    var rel := RelSegs(path, start);
    if rel == [] then "." else Join(rel)
  }

  /** Where the link `link` with text `raw` is taken to point: an absolute text is parsed
      as it is (".." kept), a relative one is joined to the link's directory and passed
      to `resolve`, which stands for `Path.resolve(strict=False)` and so follows the
      symbolic links met on the way. */
  function TargetAbs(raw: string, link: Path, resolve: Path -> Path): Path {
    if IsAbs(raw) then Parts(raw) else resolve(Parent(link) + Parts(raw))
  }

  /** `resolve` yields canonical paths: every component is a proper name. */
  ghost predicate Canonical(resolve: Path -> Path) {
    forall p: Path :: Clean(resolve(p))
  }

  /** The text of the mirrored link at `dstPath` for the source link `link` with text
      `raw`: a target inside `srcRoot` is moved under `dstRoot` and written relative to
      the new link's directory; any other target keeps its text. */
  function MappedTarget(raw: string, link: Path, srcRoot: Path, dstRoot: Path, dstPath: Path,
                        resolve: Path -> Path): (r: string)
    ensures !IsPrefix(srcRoot, TargetAbs(raw, link, resolve)) ==> r == raw
  {
    var target := TargetAbs(raw, link, resolve);
    if IsPrefix(srcRoot, target) then
      RelPath(dstRoot + target[|srcRoot|..], Parent(dstPath))
    else
      raw
  }

  /** Climbing out of `start` to the common part and descending again. */
  lemma UpsThenDown(s: Path, i: nat, tail: seq<string>)
    requires i <= |s| && Clean(tail)
    ensures Norm(s, Ups(|s| - i) + tail) == s[..i] + tail
  {
    NormAppend(s, Ups(|s| - i), tail);
    NormUps(s, |s| - i);
    NormClean(s[..i], tail);
  }

  /** Text produced by `Join` starts with the first piece. */
  lemma JoinHead(segs: seq<string>)
    requires segs != [] && segs[0] != ""
    ensures Join(segs)[0] == segs[0][0]
  {
  }

  /** The tail past the common part of a clean path is clean, and ".." steps followed by
      it carry no slash and start with a non-empty component without a slash. */
  lemma RelSegsShape(t: Path, ups: nat, i: nat)
    requires Clean(t) && i <= |t|
    ensures Clean(t[i..])
    ensures NoSlash(Ups(ups) + t[i..])
    ensures Ups(ups) + t[i..] != [] ==> (Ups(ups) + t[i..])[0] != "" && '/' !in (Ups(ups) + t[i..])[0]
  {
    var tail := t[i..];
    forall k | 0 <= k < |tail|
      ensures ValidName(tail[k])
    {
      assert tail[k] == t[i + k];
    }
    var rel := Ups(ups) + tail;
    forall k | 0 <= k < |rel|
      ensures '/' !in rel[k]
    {
      if k >= ups {
        assert rel[k] == tail[k - ups];
      }
    }
    if rel != [] && ups == 0 {
      assert rel[0] == tail[0];
    }
  }

  /** From `s`, climbing to the first `i` components, which `s` shares with a clean `t`,
      and descending along the rest of `t` leads to `t`. */
  lemma ClimbAndDescend(t: Path, s: Path, i: nat)
    requires Clean(t) && i <= |t| && i <= |s| && t[..i] == s[..i]
    ensures Norm(s, Ups(|s| - i) + t[i..]) == t
  {
    CleanTail(t, i);
    UpsThenDown(s, i, t[i..]);
    SharedThenRest(t, s, i);
  }

  /** What follows a clean path's first `i` components is clean. */
  lemma CleanTail(t: Path, i: nat)
    requires Clean(t) && i <= |t|
    ensures Clean(t[i..])
  {
    forall k | 0 <= k < |t| - i
      ensures ValidName(t[i..][k])
    {
      assert t[i..][k] == t[i + k];
    }
  }

  /** The part shared with `s`, followed by the rest of `t`, is `t`. */
  lemma SharedThenRest(t: Path, s: Path, i: nat)
    requires i <= |t| && i <= |s| && t[..i] == s[..i]
    ensures s[..i] + t[i..] == t
  {
    assert t == t[..i] + t[i..];
  }

  /** The components `RelSegs` writes, read from a clean `start`, lead to `path`. */
  lemma {:induction false} RelSegsResolve(path: Path, start: Path)
    requires NoSlash(path) && Clean(start)
    ensures Clean(Norm([], path))
    ensures NoSlash(RelSegs(path, start))
    ensures RelSegs(path, start) != [] ==> RelSegs(path, start)[0] != "" && '/' !in RelSegs(path, start)[0]
    ensures Norm(start, RelSegs(path, start)) == Norm([], path)
  {
    var t := Norm([], path);
    NormStaysClean([], path);
    NormClean([], start);
    assert Norm([], start) == start;
    var i := CommonLen(t, start);
    assert RelSegs(path, start) == Ups(|start| - i) + t[i..];
    RelSegsShape(t, |start| - i, i);
    ClimbAndDescend(t, start, i);
  }

  /** The relative text that `RelPath` writes, read from `start`, names `path`. */
  lemma {:induction false} RelPathResolves(path: Path, start: Path)
    requires NoSlash(path) && Clean(start)
    ensures !IsAbs(RelPath(path, start))
    ensures Norm([], start + Split(RelPath(path, start))) == Norm([], path)
  {
    var rel := RelSegs(path, start);
    var txt := RelPath(path, start);
    RelSegsResolve(path, start);
    NormClean([], start);
    assert [] + start == start;
    NormAppend([], start, Split(txt));
    if rel == [] {
      assert txt == ".";
      SplitSingle(".");
      assert Norm(start, ["."]) == Norm(start, []);
    } else {
      assert txt == Join(rel);
      JoinHead(rel);
      SplitJoin(rel);
      assert Split(txt) == rel;
      assert Norm(Norm([], start), Split(txt)) == Norm(start, rel);
    }
  }

  /** Read from the mirrored link's directory, the mapped text of a link that pointed
      into `srcRoot` names the same place below `dstRoot`. */
  lemma {:induction false} MappedTargetRoundTrip(raw: string, link: Path, srcRoot: Path, dstRoot: Path,
                                                 dstPath: Path, resolve: Path -> Path)
    requires Canonical(resolve) && NoSlash(dstRoot) && Clean(dstPath)
    requires IsPrefix(srcRoot, TargetAbs(raw, link, resolve))
    ensures !IsAbs(MappedTarget(raw, link, srcRoot, dstRoot, dstPath, resolve))
    ensures Norm([], Parent(dstPath) + Split(MappedTarget(raw, link, srcRoot, dstRoot, dstPath, resolve)))
         == Norm([], dstRoot + TargetAbs(raw, link, resolve)[|srcRoot|..])
  {
    var target := TargetAbs(raw, link, resolve);
    assert NoSlash(target) by {
      if !IsAbs(raw) {
        assert Clean(resolve(Parent(link) + Parts(raw)));
      }
    }
    var mapped := dstRoot + target[|srcRoot|..];
    assert NoSlash(mapped) by {
      forall k | 0 <= k < |mapped| ensures '/' !in mapped[k] {
        if k >= |dstRoot| {
          assert mapped[k] == target[|srcRoot| + k - |dstRoot|];
        }
      }
    }
    RelPathResolves(mapped, Parent(dstPath));
  }
}
