/** Absolute POSIX paths as sequences of components, their string form, and the lexical
    operations (splitting a path string, normalising "." and "..") the engine relies on. */
module Paths {

  /** An absolute path given by its components; the filesystem root `/` is `[]`. */
  type Path = seq<string>

  /** `Path.parent`: the root is its own parent. */
  function Parent(p: Path): Path {
    if p == [] then [] else p[..|p| - 1]
  }

  /** `a` is `b` or one of its ancestors. */
  predicate IsPrefix(a: Path, b: Path) {
    |a| <= |b| && b[..|a|] == a
  }

  /** `p` lies strictly below `root`. */
  predicate Below(root: Path, p: Path) {
    |root| < |p| && p[..|root|] == root
  }

  /** Lying below is transitive. */
  lemma BelowBelow(a: Path, b: Path, c: Path)
    requires Below(a, b) && Below(b, c)
    ensures Below(a, c)
  {
    assert c[..|b|][..|a|] == c[..|a|];
  }

  /** The parent of a path below `a` is `a` followed by the parent of the rest. */
  lemma ParentAppend(a: Path, rel: Path)
    requires rel != []
    ensures Parent(a + rel) == a + Parent(rel)
  {
    assert (a + rel)[..|a + rel| - 1] == a + rel[..|rel| - 1];
  }

  /** Sum of the lengths of the components. */
  function TotalLen(p: Path): nat {
    if p == [] then 0 else TotalLen(p[..|p| - 1]) + |p[|p| - 1]|
  }

  /** Every component preceded by a slash. */
  function Slashed(p: Path): string {
    if p == [] then "" else Slashed(p[..|p| - 1]) + "/" + p[|p| - 1]
  }

  /** `Path.as_posix()` of an absolute path. */
  function Posix(p: Path): string {
    if p == [] then "/" else Slashed(p)
  }

  function PosixLen(p: Path): nat {
    |Posix(p)|
  }

  /** The POSIX length is one separator per component plus the components' lengths,
      and 1 for the root. */
  lemma {:induction false} PosixLenIsSum(p: Path)
    ensures PosixLen(p) == if p == [] then 1 else |p| + TotalLen(p)
  {
    if p != [] {
      SlashedLen(p);
    }
  }

  lemma {:induction false} SlashedLen(p: Path)
    ensures |Slashed(p)| == |p| + TotalLen(p)
  {
    if p != [] {
      SlashedLen(p[..|p| - 1]);
    }
  }

  /** A proper prefix holds no more characters in its components. */
  lemma {:induction false} TotalLenPrefix(a: Path, b: Path)
    requires IsPrefix(a, b)
    ensures TotalLen(a) <= TotalLen(b)
    decreases |b|
  {
    if a != b {
      var init := b[..|b| - 1];
      assert init[..|a|] == b[..|a|];
      TotalLenPrefix(a, init);
    }
  }

  /** A path strictly inside another (other than `/`) has the longer POSIX string. */
  lemma PosixLenBelow(a: Path, b: Path)
    requires IsPrefix(a, b) && a != b && a != []
    ensures PosixLen(a) < PosixLen(b)
  {
    PosixLenIsSum(a);
    PosixLenIsSum(b);
    TotalLenPrefix(a, b);
  }

  /** The child `root / name` is one separator and the name longer than its parent,
      except below `/`, which needs no separator of its own. */
  lemma ChildPosixLen(root: Path, name: string)
    ensures PosixLen(root + [name]) == (if root == [] then 1 else PosixLen(root) + 1) + |name|
  {
    var p := root + [name];
    assert p[..|p| - 1] == root;
    assert Slashed(p) == Slashed(root) + "/" + name;
  }

  /** A component that a canonical path may hold. */
  predicate ValidName(c: string) {
    c != "" && c != "." && c != ".." && '/' !in c
  }

  predicate Clean(p: seq<string>) {
    forall i :: 0 <= i < |p| ==> ValidName(p[i])
  }

  predicate NoSlash(p: seq<string>) {
    forall i :: 0 <= i < |p| ==> '/' !in p[i]
  }

  predicate IsAbs(s: string) {
    |s| > 0 && s[0] == '/'
  }

  /** `s.split("/")`: the pieces between slashes, empty ones included. */
  function Split(s: string): (r: seq<string>)
    ensures |r| >= 1
    ensures NoSlash(r)
  {
    if |s| == 0 then [""]
    else if s[0] == '/' then [""] + Split(s[1..])
    else
      var rest := Split(s[1..]);
      [[s[0]] + rest[0]] + rest[1..]
  }

  /** `"/".join(segs)`. */
  function Join(segs: seq<string>): string {
    if segs == [] then ""
    else if |segs| == 1 then segs[0]
    else segs[0] + "/" + Join(segs[1..])
  }

  /** The components pathlib keeps from a path string: empty pieces and "." are dropped,
      ".." is kept. */
  function Parts(s: string): (r: seq<string>)
    ensures NoSlash(r)
  {
    Filter(Split(s))
  }

  function Filter(segs: seq<string>): (r: seq<string>)
    requires NoSlash(segs)
    ensures NoSlash(r)
    ensures forall i :: 0 <= i < |r| ==> r[i] != "" && r[i] != "."
  {
    if segs == [] then []
    else if segs[0] == "" || segs[0] == "." then Filter(segs[1..])
    else [segs[0]] + Filter(segs[1..])
  }

  /** One step of lexical normalisation: "" and "." stay put, ".." climbs (never above `/`). */
  function Step(acc: Path, seg: string): Path {
    if seg == "" || seg == "." then acc
    else if seg == ".." then Parent(acc)
    else acc + [seg]
  }

  /** `os.path.normpath` of `acc` followed by `segs`, for an already normal `acc`. */
  function Norm(acc: Path, segs: seq<string>): Path
    decreases |segs|
  {
    if segs == [] then acc else Norm(Step(acc, segs[0]), segs[1..])
  }

  /** `n` copies of "..". */
  function Ups(n: nat): (r: seq<string>)
    ensures |r| == n
    ensures forall i :: 0 <= i < n ==> r[i] == ".."
  {
    seq(n, _ => "..")
  }

  /** Normalising a concatenation normalises the first part, then continues from there. */
  lemma {:induction false} NormAppend(acc: Path, a: seq<string>, b: seq<string>)
    ensures Norm(acc, a + b) == Norm(Norm(acc, a), b)
    decreases |a|
  {
    if a != [] {
      assert (a + b)[0] == a[0];
      assert (a + b)[1..] == a[1..] + b;
      NormAppend(Step(acc, a[0]), a[1..], b);
    } else {
      assert a + b == b;
    }
  }

  /** Clean components are appended as they are. */
  lemma {:induction false} NormClean(acc: Path, segs: seq<string>)
    requires Clean(segs)
    ensures Norm(acc, segs) == acc + segs
    decreases |segs|
  {
    if segs != [] {
      NormClean(acc + [segs[0]], segs[1..]);
      assert acc + [segs[0]] + segs[1..] == acc + segs;
    }
  }

  /** `n` times ".." removes the last `n` components. */
  lemma {:induction false} NormUps(acc: Path, n: nat)
    requires n <= |acc|
    ensures Norm(acc, Ups(n)) == acc[..|acc| - n]
    decreases n
  {
    if n > 0 {
      assert Ups(n)[1..] == Ups(n - 1);
      NormUps(Parent(acc), n - 1);
      assert Parent(acc)[..|Parent(acc)| - (n - 1)] == acc[..|acc| - n];
    }
  }

  /** Normalising slash-free pieces onto a clean path yields a clean path. */
  lemma {:induction false} NormStaysClean(acc: Path, segs: seq<string>)
    requires Clean(acc) && NoSlash(segs)
    ensures Clean(Norm(acc, segs))
    decreases |segs|
  {
    if segs != [] {
      NormStaysClean(Step(acc, segs[0]), segs[1..]);
    }
  }

  /** Splitting `c + "/" + rest` peels off `c` when `c` has no slash. */
  lemma {:induction false} SplitCons(c: string, rest: string)
    requires '/' !in c
    ensures Split(c + "/" + rest) == [c] + Split(rest)
    decreases |c|
  {
    if c == [] {
      assert c + "/" + rest == "/" + rest;
      assert ("/" + rest)[1..] == rest;
    } else {
      var s := c + "/" + rest;
      assert s[0] == c[0];
      assert s[1..] == c[1..] + "/" + rest;
      SplitCons(c[1..], rest);
      assert [c[0]] + c[1..] == c;
    }
  }

  /** A string with no slash splits into itself. */
  lemma {:induction false} SplitSingle(c: string)
    requires '/' !in c
    ensures Split(c) == [c]
    decreases |c|
  {
    if c != [] {
      SplitSingle(c[1..]);
      assert [c[0]] + c[1..] == c;
    }
  }

  /** Joining slash-free pieces and splitting the result gives the pieces back. */
  lemma {:induction false} SplitJoin(segs: seq<string>)
    requires segs != [] && NoSlash(segs)
    ensures Split(Join(segs)) == segs
    decreases |segs|
  {
    if |segs| == 1 {
      SplitSingle(segs[0]);
    } else {
      SplitJoin(segs[1..]);
      SplitCons(segs[0], Join(segs[1..]));
    }
  }
}
