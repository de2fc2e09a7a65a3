/** Materialising a source tree under a new directory: `_replace_with_symlink`,
    `hardcopy` (hard links, re-targeted symbolic links), the `shutil.copytree` fallback,
    and `link_or_copy_tree`, which chooses between them. */
module Mirror {
  import opened Paths
  import opened Wrappers
  import opened FileSystem
  import opened Symlinks

  /** Why materialisation stopped. */
  datatype Fault =
    | Os(errno: Errno)                 // an `OSError` that propagated
    | NonEmptyDirectory(path: Path)    // the `RuntimeError` of `_replace_with_symlink`
    | CopyErrors                       // the `shutil.Error` collecting copy failures

  /** The word `link_or_copy_tree` reports. */
  datatype Mode = Hardlink | Copy

  /** `src` and `dst` are apart: neither lies inside the other. */
  predicate Disjoint(src: Path, dst: Path) {
    !IsPrefix(src, dst) && !IsPrefix(dst, src)
  }

  /** `walk` lists, parents first and each once, the paths (relative to `src`) of every
      entry strictly below `src`, as a top-down `os.walk` without following links visits
      them. */
  ghost predicate IsWalk(m: map<Path, Entry>, src: Path, walk: seq<Path>) {
    && (forall i :: 0 <= i < |walk| ==> walk[i] != [] && src + walk[i] in m)
    && (forall q :: q in m && Below(src, q) ==> q[|src|..] in walk)
    && (forall i, j :: 0 <= i < j < |walk| ==> walk[i] != walk[j])
    && (forall i :: 0 <= i < |walk| && |walk[i]| > 1 ==> Parent(walk[i]) in walk[..i])
  }

  /** `d` can take a new entry: it is absent and its parent is a directory. */
  ghost predicate Free(m: map<Path, Entry>, d: Path) {
    d !in m && Parent(d) in m && m[Parent(d)] == Dir
  }

  /** `m` and `m'` agree at `q`. */
  ghost predicate Same(m: map<Path, Entry>, m': map<Path, Entry>, q: Path) {
    (q in m <==> q in m') && (q in m ==> m'[q] == m[q])
  }

  /** `m'` differs from `m` at most at `d`. */
  ghost predicate OnlyAt(m: map<Path, Entry>, m': map<Path, Entry>, d: Path) {
    forall q :: q != d ==> Same(m, m', q)
  }

  /** `m'` differs from `m` at most at `d` and inside it. */
  ghost predicate OnlyWithin(m: map<Path, Entry>, m': map<Path, Entry>, d: Path) {
    forall q :: !IsPrefix(d, q) ==> Same(m, m', q)
  }

  /** `m'` differs from `m` at most strictly inside `d`. */
  ghost predicate OnlyBelow(m: map<Path, Entry>, m': map<Path, Entry>, d: Path) {
    forall q :: !Below(d, q) ==> Same(m, m', q)
  }

  /** `m'` differs from `m` at most inside `d` and along the path to it. */
  ghost predicate OnlyAlong(m: map<Path, Entry>, m': map<Path, Entry>, d: Path) {
    forall q :: !Below(d, q) && !IsPrefix(q, d) ==> Same(m, m', q)
  }

  /** Storing at, removing or keeping `d` changes nothing else. */
  lemma OnlyAtChange(m: map<Path, Entry>, d: Path, v: Entry)
    ensures OnlyAt(m, m[d := v], d) && OnlyAt(m, m - {d}, d) && OnlyAt(m, m, d)
  {
  }

  /** A change at `d`, or at a child of `d`, stays within `d`. */
  lemma OnlyAtWithin(m: map<Path, Entry>, m': map<Path, Entry>, d: Path, t: Path)
    requires OnlyAt(m, m', t) && IsPrefix(d, t)
    ensures OnlyWithin(m, m', d)
  {
    forall q | !IsPrefix(d, q)
      ensures Same(m, m', q)
    {
      assert q != t;
    }
  }

  lemma OnlyWithinTrans(m1: map<Path, Entry>, m2: map<Path, Entry>, m3: map<Path, Entry>, d: Path)
    requires OnlyWithin(m1, m2, d) && OnlyWithin(m2, m3, d)
    ensures OnlyWithin(m1, m3, d)
  {
  }

  /** Changes within a path strictly inside `dst`, following changes strictly inside
      `dst`, stay strictly inside `dst`. */
  lemma OnlyBelowStep(m1: map<Path, Entry>, m2: map<Path, Entry>, m3: map<Path, Entry>, dst: Path, d: Path)
    requires OnlyBelow(m1, m2, dst) && OnlyWithin(m2, m3, d) && Below(dst, d)
    ensures OnlyBelow(m1, m3, dst)
  {
    forall q | !Below(dst, q)
      ensures Same(m1, m3, q)
    {
      if IsPrefix(d, q) {
        if q != d {
          assert Below(d, q);
          BelowBelow(dst, d, q);
        }
      }
    }
  }

  /** `d` holds a copy of inode `i` of `data0`: a regular file on a new inode with the
      same contents. */
  ghost predicate CopyOf(now: map<Path, Entry>, data: map<nat, seq<bv8>>, data0: map<nat, seq<bv8>>, d: Path, i: nat) {
    && d in now && now[d].File?
    && now[d].ino !in data0 && now[d].ino in data
    && i in data0 && data[now[d].ino] == data0[i]
  }

  /** What `hardcopy` leaves at `d` for the source entry `e` at `s`, starting from a free
      slot: a directory, a link with the re-targeted text, and for a regular file the same
      inode when the link is allowed, else a copy (with `fallbackCopy`) or nothing. */
  ghost predicate HardMirrored(fs: Fs, e: Entry, s: Path, d: Path, src: Path, dst: Path, fallbackCopy: bool,
                               now: map<Path, Entry>, data: map<nat, seq<bv8>>, data0: map<nat, seq<bv8>>) {
    match e
    case Dir => d in now && now[d] == Dir
    case Symlink(raw) => d in now && now[d] == Entry.Symlink(MappedTarget(raw, s, src, dst, d, fs.resolve))
    case File(i) =>
      if fs.device(s) == fs.device(Parent(d)) && s !in fs.linkRefused then d in now && now[d] == File(i)
      else if fallbackCopy then CopyOf(now, data, data0, d, i)
      else d !in now
  }

  /** A mirrored entry stays mirrored while its own path is untouched and existing inodes
      keep their contents. */
  lemma HardMirroredFrame(fs: Fs, e: Entry, s: Path, d: Path, src: Path, dst: Path, fallbackCopy: bool,
                          now: map<Path, Entry>, data: map<nat, seq<bv8>>, data1: map<nat, seq<bv8>>,
                          now': map<Path, Entry>, data': map<nat, seq<bv8>>, data0: map<nat, seq<bv8>>)
    requires HardMirrored(fs, e, s, d, src, dst, fallbackCopy, now, data, data1)
    requires Same(now, now', d)
    requires forall j :: j in data ==> j in data' && data'[j] == data[j]
    requires forall j :: j in data0 ==> j in data1 && data1[j] == data0[j]
    requires e.File? ==> e.ino in data0
    ensures HardMirrored(fs, e, s, d, src, dst, fallbackCopy, now', data', data0)
  {
  }

  /** `_replace_with_symlink(target, linkPath)`: whatever non-directory sits at `linkPath`
      is removed, an empty directory too, and a link with text `target` is created; a
      non-empty directory is refused and left alone. */
  method ReplaceWithSymlink(fs: Fs, target: string, linkPath: Path) returns (err: Option<Fault>)
    requires fs.Valid()
    modifies fs
    ensures fs.Valid()
    ensures fs.data == old(fs.data) && fs.nextIno == old(fs.nextIno)
    ensures err.None? <==>
      linkPath != [] && Parent(linkPath) in old(fs.entries) && old(fs.entries)[Parent(linkPath)] == Dir
      && !HasChildOf(old(fs.entries), linkPath)
    ensures err.None? ==> fs.entries == old(fs.entries)[linkPath := Entry.Symlink(target)]
    ensures err.Some? ==> fs.entries == old(fs.entries)
    ensures linkPath != [] && linkPath in old(fs.entries) && HasChildOf(old(fs.entries), linkPath) ==>
      err == Some(NonEmptyDirectory(linkPath))
  {
    var e := fs.Unlink(linkPath);
    if e == Some(EISDIR) {
      var e2 := fs.Rmdir(linkPath);
      if e2.Some? {
        if e2.value != ENOTEMPTY {
          return Some(Os(e2.value));
        }
        return Some(NonEmptyDirectory(linkPath));
      }
    }
    var e3 := fs.Symlink(target, linkPath);
    if e3.Some? {
      return Some(Os(e3.value));
    }
    err := None;
  }

  /** A path inside `src` is neither inside `dst` nor one of its ancestors. */
  lemma DisjointApart(src: Path, dst: Path, rel: Path)
    requires Disjoint(src, dst)
    ensures !Below(dst, src + rel) && !IsPrefix(src + rel, dst)
  {
    var p := src + rel;
    assert p[..|src|] == src;
    if |dst| <= |src| {
      assert p[..|dst|] == src[..|dst|];
    } else if |p| >= |dst| {
      assert p[..|dst|][..|src|] == src;
    }
    if |p| <= |dst| {
      assert dst[..|p|][..|src|] == dst[..|src|];
    }
  }

  /** One entry of the `hardcopy` walk: the source entry at `src + rel` is mirrored at
      `dst + rel`. Only paths inside `dst` change; into a free slot the step succeeds and
      leaves exactly the mirrored entry. */
  method HardCopyEntry(fs: Fs, src: Path, dst: Path, fallbackCopy: bool, rel: Path) returns (err: Option<Fault>)
    requires fs.Valid()
    requires rel != [] && src + rel in fs.entries && !Below(dst, src + rel)
    modifies fs
    ensures fs.Valid()
    ensures OnlyWithin(old(fs.entries), fs.entries, dst + rel)
    ensures Free(old(fs.entries), dst + rel) ==>
      && err.None?
      && OnlyAt(old(fs.entries), fs.entries, dst + rel)
      && HardMirrored(fs, old(fs.entries)[src + rel], src + rel, dst + rel, src, dst, fallbackCopy,
                      fs.entries, fs.data, old(fs.data))
      && (forall j :: j in old(fs.data) ==> j in fs.data && fs.data[j] == old(fs.data)[j])
  {
    var s := src + rel;
    var d := dst + rel;
    assert d[..|dst|] == dst;
    assert !Below(d, s) by {
      if Below(d, s) {
        BelowBelow(dst, d, s);
      }
    }
    ghost var e0 := fs.entries;
    ghost var n0 := fs.nextIno;
    match fs.entries[s] {
    case Dir =>
      var e := fs.Mkdir(d, true);
      OnlyAtChange(e0, d, Dir);
      OnlyAtWithin(e0, fs.entries, d, d);
      if e.Some? {
        return Some(Os(e.value));
      }
    case Symlink(raw) =>
      var target := MappedTarget(raw, s, src, dst, d, fs.resolve);
      err := ReplaceWithSymlink(fs, target, d);
      OnlyAtChange(e0, d, Entry.Symlink(target));
      OnlyAtWithin(e0, fs.entries, d, d);
      if err.Some? {
        return;
      }
    case File(_) =>
      err := LinkFile(fs, s, d, fallbackCopy);
      OnlyAtChange(e0, d, e0[s]);
      OnlyAtChange(e0, d, File(n0));
      if err.Some? {
        return;
      }
    }
    err := None;
  }

  /** The regular-file step of `hardcopy`: whatever is at `d` is unlinked, then `d`
      becomes a hard link to `s`; when that fails and `fallbackCopy` is set, `s` is copied
      instead, and otherwise the failure is swallowed. Only `d` and paths inside it change. */
  method LinkFile(fs: Fs, s: Path, d: Path, fallbackCopy: bool) returns (err: Option<Fault>)
    requires fs.Valid()
    requires s in fs.entries && fs.entries[s].File? && s != d && !Below(d, s)
    modifies fs
    ensures fs.Valid()
    ensures OnlyWithin(old(fs.entries), fs.entries, d)
    ensures !fallbackCopy ==> err.None?
    ensures Free(old(fs.entries), d) ==>
      if fs.LinkPermitted(s, d) then
        err.None? && fs.entries == old(fs.entries)[d := old(fs.entries)[s]] && fs.data == old(fs.data)
      else if fallbackCopy then
        && err.None?
        && fs.entries == old(fs.entries)[d := File(old(fs.nextIno))]
        && fs.data == old(fs.data)[old(fs.nextIno) := old(fs.data)[old(fs.entries)[s].ino]]
      else
        fs.entries == old(fs.entries) && fs.data == old(fs.data)
  {
    ghost var m0 := fs.entries;
    var e := fs.Unlink(d);
    OnlyAtChange(m0, d, Dir);
    OnlyAtWithin(m0, fs.entries, d, d);
    var failed := e.Some? && e.value != ENOENT;
    if !failed {
      ghost var m1 := fs.entries;
      var e2 := fs.Link(s, d);
      OnlyAtChange(m1, d, m1[s]);
      OnlyAtWithin(m1, fs.entries, d, d);
      OnlyWithinTrans(m0, m1, fs.entries, d);
      failed := e2.Some?;
    }
    if failed && fallbackCopy {
      ghost var m2 := fs.entries;
      ghost var t := fs.CopyDest(s, d);
      assert IsPrefix(d, t) by {
        assert t[..|d|] == d;
      }
      OnlyAtChange(m2, t, File(fs.nextIno));
      var e3 := fs.Copy2(s, d);
      OnlyAtWithin(m2, fs.entries, d, t);
      OnlyWithinTrans(m0, m2, fs.entries, d);
      if e3.Some? {
        return Some(Os(e3.value));
      }
    }
    err := None;
  }

  /** The outcome `hardcopy` promises for a destination that had nothing inside it:
      `dst` is a directory, every walked source entry is mirrored at the same relative
      path, nothing else is inside `dst`, and existing inodes keep their contents. */
  ghost predicate HardTree(fs: Fs, src: Path, dst: Path, fallbackCopy: bool, walk: seq<Path>,
                           e0: map<Path, Entry>, d0: map<nat, seq<bv8>>)
    reads fs
  {
    && dst in fs.entries && fs.entries[dst] == Dir
    && (forall i :: 0 <= i < |walk| ==>
          src + walk[i] in e0
          && HardMirrored(fs, e0[src + walk[i]], src + walk[i], dst + walk[i], src, dst, fallbackCopy,
                          fs.entries, fs.data, d0))
    && (forall q :: q in fs.entries && Below(dst, q) ==> q[|dst|..] in walk)
    && (forall j :: j in d0 ==> j in fs.data && fs.data[j] == d0[j])
  }

  /** In a destination filled in walk order, the slot of the next walked entry is free: it
      was not written before (the walk lists each entry once) and its parent was created
      as a directory earlier (the walk lists parents first). */
  lemma SlotFree(src: Path, dst: Path, walk: seq<Path>, n: nat, e0: map<Path, Entry>, now: map<Path, Entry>)
    requires IsWalk(e0, src, walk) && Closed(e0) && n < |walk|
    requires dst in now && now[dst] == Dir
    requires forall q :: q in now && Below(dst, q) ==> q[|dst|..] in walk[..n]
    requires forall i :: 0 <= i < n && e0[src + walk[i]] == Dir ==> dst + walk[i] in now && now[dst + walk[i]] == Dir
    ensures Free(now, dst + walk[n])
  {
    var rel := walk[n];
    var d := dst + rel;
    assert d[..|dst|] == dst && d[|dst|..] == rel;
    assert rel !in walk[..n];
    ParentAppend(dst, rel);
    if |rel| > 1 {
      ParentInWalk(src, walk, n, e0);
    }
  }

  /** The parent of a walked entry below the top is walked earlier, as a directory. */
  lemma ParentInWalk(src: Path, walk: seq<Path>, n: nat, e0: map<Path, Entry>)
    requires IsWalk(e0, src, walk) && Closed(e0) && n < |walk| && |walk[n]| > 1
    ensures exists j :: 0 <= j < n && walk[j] == Parent(walk[n]) && e0[src + walk[j]] == Dir
  {
    var rel := walk[n];
    assert Parent(rel) in walk[..n];
    var j :| 0 <= j < n && walk[j] == Parent(rel);
    ParentAppend(src, rel);
    assert src + rel in e0 && src + rel != [];
  }

  /** After the first `n` entries of the walk: each of them is mirrored, nothing else is
      inside `dst`, and existing inodes keep their contents. */
  ghost predicate HardProgress(fs: Fs, src: Path, dst: Path, fallbackCopy: bool, walk: seq<Path>, n: nat,
                               e0: map<Path, Entry>, d0: map<nat, seq<bv8>>,
                               now: map<Path, Entry>, data: map<nat, seq<bv8>>)
    requires n <= |walk| && forall i :: 0 <= i < |walk| ==> src + walk[i] in e0
  {
    && (forall i :: 0 <= i < n ==>
          HardMirrored(fs, e0[src + walk[i]], src + walk[i], dst + walk[i], src, dst, fallbackCopy, now, data, d0))
    && (forall q :: q in now && Below(dst, q) ==> q[|dst|..] in walk[..n])
    && (forall j :: j in d0 ==> j in data && data[j] == d0[j])
  }

  /** Partway through `hardcopy`, the slot of the next walked entry is free. */
  lemma HardNextFree(fs: Fs, src: Path, dst: Path, fallbackCopy: bool, walk: seq<Path>, n: nat,
                     e0: map<Path, Entry>, d0: map<nat, seq<bv8>>, now: map<Path, Entry>, data: map<nat, seq<bv8>>)
    requires IsWalk(e0, src, walk) && Closed(e0) && n < |walk|
    requires dst in now && now[dst] == Dir
    requires HardProgress(fs, src, dst, fallbackCopy, walk, n, e0, d0, now, data)
    ensures Free(now, dst + walk[n])
  {
    SlotFree(src, dst, walk, n, e0, now);
  }

  /** Mirroring the next walked entry into its free slot advances `hardcopy` by one
      entry. */
  lemma HardStep(fs: Fs, src: Path, dst: Path, fallbackCopy: bool, walk: seq<Path>, n: nat,
                 e0: map<Path, Entry>, d0: map<nat, seq<bv8>>,
                 prevE: map<Path, Entry>, prevD: map<nat, seq<bv8>>,
                 now: map<Path, Entry>, data: map<nat, seq<bv8>>)
    requires IsWalk(e0, src, walk) && n < |walk|
    requires forall p :: p in e0 && e0[p].File? ==> e0[p].ino in d0
    requires HardProgress(fs, src, dst, fallbackCopy, walk, n, e0, d0, prevE, prevD)
    requires OnlyAt(prevE, now, dst + walk[n])
    requires HardMirrored(fs, e0[src + walk[n]], src + walk[n], dst + walk[n], src, dst, fallbackCopy, now, data, prevD)
    requires forall j :: j in prevD ==> j in data && data[j] == prevD[j]
    ensures HardProgress(fs, src, dst, fallbackCopy, walk, n + 1, e0, d0, now, data)
  {
    var rel := walk[n];
    var d := dst + rel;
    assert d[|dst|..] == rel;
    forall i | 0 <= i < n + 1
      ensures HardMirrored(fs, e0[src + walk[i]], src + walk[i], dst + walk[i], src, dst, fallbackCopy, now, data, d0)
    {
      if i < n {
        assert (dst + walk[i])[|dst|..] == walk[i];
        HardMirroredFrame(fs, e0[src + walk[i]], src + walk[i], dst + walk[i], src, dst, fallbackCopy,
                          prevE, prevD, d0, now, data, d0);
      } else {
        HardMirroredFrame(fs, e0[src + rel], src + rel, d, src, dst, fallbackCopy,
                          now, data, prevD, now, data, d0);
      }
    }
    forall q | q in now && Below(dst, q)
      ensures q[|dst|..] in walk[..n + 1]
    {
      if q != d {
        assert Same(prevE, now, q);
        assert q[|dst|..] in walk[..n];
      }
    }
  }

  /** The walk of `hardcopy` into an existing directory `dst`: every walked entry is
      mirrored in order, stopping at the first error that propagates. Only paths strictly
      inside `dst` change; into a destination that had nothing inside it the walk
      succeeds and every entry is mirrored. */
  method HardWalk(fs: Fs, src: Path, dst: Path, fallbackCopy: bool, walk: seq<Path>) returns (err: Option<Fault>)
    requires fs.Valid()
    requires IsWalk(fs.entries, src, walk) && Disjoint(src, dst)
    requires dst in fs.entries && fs.entries[dst] == Dir
    modifies fs
    ensures fs.Valid()
    ensures OnlyBelow(old(fs.entries), fs.entries, dst)
    ensures NothingBelow(old(fs.entries), dst) ==>
      err.None? && HardProgress(fs, src, dst, fallbackCopy, walk, |walk|, old(fs.entries), old(fs.data), fs.entries, fs.data)
  {
    ghost var e0 := fs.entries;
    ghost var d0 := fs.data;
    ghost var wasEmpty := NothingBelow(e0, dst);
    assert WellFormed(e0, d0, fs.nextIno);
    forall k | 0 <= k < |walk|
      ensures !Below(dst, src + walk[k])
    {
      DisjointApart(src, dst, walk[k]);
    }
    for n := 0 to |walk|
      invariant fs.Valid()
      invariant OnlyBelow(e0, fs.entries, dst)
      invariant wasEmpty ==> HardProgress(fs, src, dst, fallbackCopy, walk, n, e0, d0, fs.entries, fs.data)
    {
      var rel := walk[n];
      assert Same(e0, fs.entries, src + rel) && Same(e0, fs.entries, dst);
      ghost var prevE := fs.entries;
      ghost var prevD := fs.data;
      if wasEmpty {
        HardNextFree(fs, src, dst, fallbackCopy, walk, n, e0, d0, prevE, prevD);
      }
      assert Below(dst, dst + rel) by {
        assert (dst + rel)[..|dst|] == dst;
      }
      var f := HardCopyEntry(fs, src, dst, fallbackCopy, rel);
      OnlyBelowStep(e0, prevE, fs.entries, dst, dst + rel);
      if f.Some? {
        return f;
      }
      if wasEmpty {
        HardStep(fs, src, dst, fallbackCopy, walk, n, e0, d0, prevE, prevD, fs.entries, fs.data);
      }
    }
    err := None;
  }

  /** `hardcopy(src, dst, fallbackCopy)`: creates `dst` with its parents, then mirrors the
      walked entries in order, stopping at the first error that propagates. Only `dst`,
      the paths inside it and its missing ancestors change; into a destination that had
      nothing inside it the copy succeeds exactly when `dst` can be created, and then
      `HardTree` holds. */
  method HardCopy(fs: Fs, src: Path, dst: Path, fallbackCopy: bool, walk: seq<Path>) returns (err: Option<Fault>)
    requires fs.Valid()
    requires IsWalk(fs.entries, src, walk) && Disjoint(src, dst)
    modifies fs
    ensures fs.Valid()
    ensures OnlyAlong(old(fs.entries), fs.entries, dst)
    ensures NothingBelow(old(fs.entries), dst) ==> (err.None? <==> DirsAlong(old(fs.entries), dst))
    ensures NothingBelow(old(fs.entries), dst) && err.None? ==>
      HardTree(fs, src, dst, fallbackCopy, walk, old(fs.entries), old(fs.data))
  {
    ghost var e0 := fs.entries;
    ghost var d0 := fs.data;
    ghost var wasEmpty := NothingBelow(e0, dst);
    var e := fs.MakeDirs(dst);
    if e.Some? {
      return Some(Os(e.value));
    }
    ghost var e1 := fs.entries;
    assert IsPrefix(dst, dst);
    GrewAlongApart(e0, e1, src, dst, walk);
    err := HardWalk(fs, src, dst, fallbackCopy, walk);
    GrewThenBelow(e0, e1, fs.entries, dst);
    assert walk[..|walk|] == walk;
  }

  // ------------------------------------------------------------ copytree fallback

  /** Where a symbolic link at `link` with text `raw` leads, resolved lexically: the text
      is read from `/` when absolute and from the link's directory otherwise. */
  function Resolved(raw: string, link: Path): Path {
    if IsAbs(raw) then Norm([], Split(raw)) else Norm([], Parent(link) + Split(raw))
  }

  /** The link at `src + rel` in `m` leads nowhere `copy2` can read: its target is absent
      or is itself a link. */
  ghost predicate BadLink(m: map<Path, Entry>, src: Path, rel: Path)
    requires src + rel in m
  {
    match m[src + rel]
    case Symlink(raw) =>
      var t := Resolved(raw, src + rel);
      t !in m || m[t].Symlink?
    case _ => false
  }

  /** Every link among the walked entries leads outside `dst` and its ancestors. */
  ghost predicate LinksOutside(m: map<Path, Entry>, src: Path, dst: Path, walk: seq<Path>)
    requires forall i :: 0 <= i < |walk| ==> src + walk[i] in m
  {
    forall i :: 0 <= i < |walk| && m[src + walk[i]].Symlink? ==>
      var t := Resolved(m[src + walk[i]].target, src + walk[i]);
      !Below(dst, t) && !IsPrefix(t, dst)
  }

  /** What `shutil.copytree` leaves at `d` for the entry at `s` in `m`, starting from a
      free slot: a directory, a copy of a regular file, and for a link whatever its target
      is: a copy of a file, a directory, or nothing. */
  ghost predicate CopyMirrored(m: map<Path, Entry>, s: Path, d: Path,
                               now: map<Path, Entry>, data: map<nat, seq<bv8>>, data0: map<nat, seq<bv8>>)
    requires s in m
  {
    match m[s]
    case Dir => d in now && now[d] == Dir
    case File(i) => CopyOf(now, data, data0, d, i)
    case Symlink(raw) =>
      var t := Resolved(raw, s);
      if t in m && m[t].File? then CopyOf(now, data, data0, d, m[t].ino)
      else if t in m && m[t] == Dir then d in now && now[d] == Dir
      else d !in now
  }

  /** A copied entry stays copied while its own path, the source entry and its target
      are untouched and existing inodes keep their contents. */
  lemma CopyMirroredFrame(m: map<Path, Entry>, m': map<Path, Entry>, s: Path, d: Path,
                          now: map<Path, Entry>, data: map<nat, seq<bv8>>, data1: map<nat, seq<bv8>>,
                          now': map<Path, Entry>, data': map<nat, seq<bv8>>, data0: map<nat, seq<bv8>>)
    requires s in m && CopyMirrored(m, s, d, now, data, data1)
    requires Same(m, m', s) && (m[s].Symlink? ==> Same(m, m', Resolved(m[s].target, s)))
    requires Same(now, now', d)
    requires forall j :: j in data ==> j in data' && data'[j] == data[j]
    requires forall j :: j in data0 ==> j in data1 && data1[j] == data0[j]
    requires forall p :: p in m' && m'[p].File? ==> m'[p].ino in data0
    ensures CopyMirrored(m', s, d, now', data', data0)
  {
  }

  /** One entry of `shutil.copytree` (default `copy2`, links followed): a directory is
      created, a regular file copied, a link replaced by a copy of its target; it reports
      whether the entry failed. Only paths inside `dst` change; into a free slot the step
      leaves exactly the copied entry and fails only for a link that leads nowhere. */
  method CopyEntry(fs: Fs, src: Path, dst: Path, rel: Path) returns (failed: bool)
    requires fs.Valid()
    requires rel != [] && src + rel in fs.entries && !Below(dst, src + rel)
    modifies fs
    ensures fs.Valid()
    ensures OnlyWithin(old(fs.entries), fs.entries, dst + rel)
    ensures Free(old(fs.entries), dst + rel) ==>
      && (failed <==> BadLink(old(fs.entries), src, rel))
      && OnlyAt(old(fs.entries), fs.entries, dst + rel)
      && CopyMirrored(old(fs.entries), src + rel, dst + rel, fs.entries, fs.data, old(fs.data))
      && (forall j :: j in old(fs.data) ==> j in fs.data && fs.data[j] == old(fs.data)[j])
  {
    var s := src + rel;
    var d := dst + rel;
    ghost var e0 := fs.entries;
    OnlyAtChange(e0, d, Dir);
    var from := s;
    if fs.entries[s].Symlink? {
      from := Resolved(fs.entries[s].target, s);
      if from !in fs.entries || fs.entries[from].Symlink? {
        OnlyAtWithin(e0, e0, d, d);
        return true;
      }
    }
    if fs.entries[from] == Dir {
      var e := fs.Mkdir(d, true);
      failed := e.Some?;
      OnlyAtWithin(e0, fs.entries, d, d);
    } else {
      ghost var t := fs.CopyDest(from, d);
      assert IsPrefix(d, t) by {
        assert t[..|d|] == d;
      }
      OnlyAtChange(e0, t, File(fs.nextIno));
      var e := fs.Copy2(from, d);
      failed := e.Some?;
      OnlyAtWithin(e0, fs.entries, d, t);
    }
  }

  /** The outcome `shutil.copytree` promises for a destination that had nothing inside
      it: `dst` is a directory, every walked source entry is copied at the same relative
      path, nothing else is inside `dst`, and existing inodes keep their contents. */
  ghost predicate CopyTreeMirror(fs: Fs, src: Path, dst: Path, walk: seq<Path>,
                                 e0: map<Path, Entry>, d0: map<nat, seq<bv8>>)
    reads fs
  {
    && dst in fs.entries && fs.entries[dst] == Dir
    && (forall i :: 0 <= i < |walk| ==>
          src + walk[i] in e0 && CopyMirrored(e0, src + walk[i], dst + walk[i], fs.entries, fs.data, d0))
    && (forall q :: q in fs.entries && Below(dst, q) ==> q[|dst|..] in walk)
    && (forall j :: j in d0 ==> j in fs.data && fs.data[j] == d0[j])
  }

  /** Copying the next walked entry into its free slot extends the copied prefix of the
      walk by one entry and keeps everything else. */
  lemma CopyStepKeepsTree(src: Path, dst: Path, walk: seq<Path>, n: nat,
                          e0: map<Path, Entry>, d0: map<nat, seq<bv8>>,
                          prevE: map<Path, Entry>, prevD: map<nat, seq<bv8>>,
                          now: map<Path, Entry>, data: map<nat, seq<bv8>>)
    requires n < |walk| && forall i :: 0 <= i < n ==> walk[i] != walk[n]
    requires forall i :: 0 <= i <= n ==> src + walk[i] in e0
    requires forall p :: p in e0 && e0[p].File? ==> e0[p].ino in d0
    requires forall i :: 0 <= i < n ==> CopyMirrored(e0, src + walk[i], dst + walk[i], prevE, prevD, d0)
    requires forall q :: q in prevE && Below(dst, q) ==> q[|dst|..] in walk[..n]
    requires forall j :: j in d0 ==> j in prevD && prevD[j] == d0[j]
    requires OnlyAt(prevE, now, dst + walk[n])
    requires CopyMirrored(e0, src + walk[n], dst + walk[n], now, data, prevD)
    requires forall j :: j in prevD ==> j in data && data[j] == prevD[j]
    ensures forall i :: 0 <= i < n + 1 ==> CopyMirrored(e0, src + walk[i], dst + walk[i], now, data, d0)
    ensures forall q :: q in now && Below(dst, q) ==> q[|dst|..] in walk[..n + 1]
    ensures forall j :: j in d0 ==> j in data && data[j] == d0[j]
  {
    var rel := walk[n];
    var d := dst + rel;
    assert d[|dst|..] == rel;
    forall i | 0 <= i < n + 1
      ensures CopyMirrored(e0, src + walk[i], dst + walk[i], now, data, d0)
    {
      if i < n {
        assert (dst + walk[i])[|dst|..] == walk[i];
        CopyMirroredFrame(e0, e0, src + walk[i], dst + walk[i], prevE, prevD, d0, now, data, d0);
      } else {
        CopyMirroredFrame(e0, e0, src + rel, d, now, data, prevD, now, data, d0);
      }
    }
    forall q | q in now && Below(dst, q)
      ensures q[|dst|..] in walk[..n + 1]
    {
      if q != d {
        assert Same(prevE, now, q);
        assert q[|dst|..] in walk[..n];
      }
    }
  }

  /** After the first `n` entries of the walk: `anyFailed` records whether a link among
      them leads nowhere, each of them is copied, nothing else is inside `dst`, and
      existing inodes keep their contents. */
  ghost predicate CopyProgress(src: Path, dst: Path, walk: seq<Path>, n: nat, anyFailed: bool,
                               e0: map<Path, Entry>, d0: map<nat, seq<bv8>>,
                               now: map<Path, Entry>, data: map<nat, seq<bv8>>)
    requires n <= |walk| && forall i :: 0 <= i < |walk| ==> src + walk[i] in e0
  {
    && (!anyFailed <==> forall i :: 0 <= i < n ==> !BadLink(e0, src, walk[i]))
    && (forall i :: 0 <= i < n ==> CopyMirrored(e0, src + walk[i], dst + walk[i], now, data, d0))
    && (forall q :: q in now && Below(dst, q) ==> q[|dst|..] in walk[..n])
    && (forall j :: j in d0 ==> j in data && data[j] == d0[j])
  }

  /** Partway through the copy, the slot of the next walked entry is free. */
  lemma CopyNextFree(src: Path, dst: Path, walk: seq<Path>, n: nat, anyFailed: bool,
                     e0: map<Path, Entry>, d0: map<nat, seq<bv8>>, now: map<Path, Entry>, data: map<nat, seq<bv8>>)
    requires IsWalk(e0, src, walk) && Closed(e0) && n < |walk|
    requires dst in now && now[dst] == Dir
    requires CopyProgress(src, dst, walk, n, anyFailed, e0, d0, now, data)
    ensures Free(now, dst + walk[n])
  {
    SlotFree(src, dst, walk, n, e0, now);
  }

  /** Copying the next walked entry into its free slot advances the copy by one entry. */
  lemma CopyStep(src: Path, dst: Path, walk: seq<Path>, n: nat, anyFailed: bool, failed: bool,
                 e0: map<Path, Entry>, d0: map<nat, seq<bv8>>,
                 prevE: map<Path, Entry>, prevD: map<nat, seq<bv8>>,
                 now: map<Path, Entry>, data: map<nat, seq<bv8>>)
    requires IsWalk(e0, src, walk) && n < |walk|
    requires forall p :: p in e0 && e0[p].File? ==> e0[p].ino in d0
    requires LinksOutside(e0, src, dst, walk) && !Below(dst, src + walk[n])
    requires OnlyBelow(e0, prevE, dst)
    requires CopyProgress(src, dst, walk, n, anyFailed, e0, d0, prevE, prevD)
    requires (failed <==> BadLink(prevE, src, walk[n])) && OnlyAt(prevE, now, dst + walk[n])
    requires CopyMirrored(prevE, src + walk[n], dst + walk[n], now, data, prevD)
    requires forall j :: j in prevD ==> j in data && data[j] == prevD[j]
    ensures CopyProgress(src, dst, walk, n + 1, anyFailed || failed, e0, d0, now, data)
  {
    var rel := walk[n];
    assert Same(e0, prevE, src + rel);
    if e0[src + rel].Symlink? {
      assert Same(e0, prevE, Resolved(e0[src + rel].target, src + rel));
    }
    assert BadLink(prevE, src, rel) == BadLink(e0, src, rel);
    CopyMirroredFrame(prevE, e0, src + rel, dst + rel, now, data, prevD, now, data, prevD);
    CopyStepKeepsTree(src, dst, walk, n, e0, d0, prevE, prevD, now, data);
  }

  /** `m'` is `m` with the missing ancestors of `dst`, and `dst` itself, added. */
  ghost predicate GrewAlong(m: map<Path, Entry>, m': map<Path, Entry>, dst: Path) {
    && (forall q :: q in m' <==> q in m || IsPrefix(q, dst))
    && (forall q :: q in m ==> m'[q] == m[q])
  }

  /** Creating the directories along `dst`, then changing paths inside it, changes
      nothing away from `dst`. */
  lemma GrewThenBelow(m1: map<Path, Entry>, m2: map<Path, Entry>, m3: map<Path, Entry>, dst: Path)
    requires GrewAlong(m1, m2, dst) && OnlyBelow(m2, m3, dst)
    ensures OnlyAlong(m1, m3, dst)
  {
  }

  /** Creating the directories along `dst` touches neither the source tree nor the
      targets of links leading outside `dst`, and adds nothing inside `dst`. */
  lemma GrewAlongApart(m: map<Path, Entry>, m': map<Path, Entry>, src: Path, dst: Path, walk: seq<Path>)
    requires GrewAlong(m, m', dst) && Disjoint(src, dst) && IsWalk(m, src, walk)
    ensures IsWalk(m', src, walk)
    ensures forall i :: 0 <= i < |walk| ==> Same(m, m', src + walk[i]) && !Below(dst, src + walk[i])
    ensures NothingBelow(m, dst) ==> NothingBelow(m', dst)
    ensures LinksOutside(m, src, dst, walk) ==>
      && LinksOutside(m', src, dst, walk)
      && forall i :: 0 <= i < |walk| && m[src + walk[i]].Symlink? ==>
           Same(m, m', Resolved(m[src + walk[i]].target, src + walk[i]))
  {
    forall i | 0 <= i < |walk|
      ensures Same(m, m', src + walk[i]) && !Below(dst, src + walk[i])
    {
      DisjointApart(src, dst, walk[i]);
    }
  }

  /** The walk of `shutil.copytree` into an existing directory `dst`: every walked entry
      is copied in order and failures are collected. Only paths strictly inside `dst`
      change; into a destination that had nothing inside it, with links leading outside
      it, the walk fails exactly when some link leads nowhere, and `CopyTreeMirror`
      holds. */
  method CopyWalk(fs: Fs, src: Path, dst: Path, walk: seq<Path>) returns (anyFailed: bool)
    requires fs.Valid()
    requires IsWalk(fs.entries, src, walk) && Disjoint(src, dst)
    requires dst in fs.entries && fs.entries[dst] == Dir
    modifies fs
    ensures fs.Valid()
    ensures OnlyBelow(old(fs.entries), fs.entries, dst)
    ensures NothingBelow(old(fs.entries), dst) && LinksOutside(old(fs.entries), src, dst, walk) ==>
      && (!anyFailed <==> forall i :: 0 <= i < |walk| ==> !BadLink(old(fs.entries), src, walk[i]))
      && CopyTreeMirror(fs, src, dst, walk, old(fs.entries), old(fs.data))
  {
    ghost var e0 := fs.entries;
    ghost var d0 := fs.data;
    ghost var wasEmpty := NothingBelow(e0, dst) && LinksOutside(e0, src, dst, walk);
    assert WellFormed(e0, d0, fs.nextIno);
    forall k | 0 <= k < |walk|
      ensures !Below(dst, src + walk[k])
    {
      DisjointApart(src, dst, walk[k]);
    }
    anyFailed := false;
    for n := 0 to |walk|
      invariant fs.Valid()
      invariant OnlyBelow(e0, fs.entries, dst)
      invariant wasEmpty ==> CopyProgress(src, dst, walk, n, anyFailed, e0, d0, fs.entries, fs.data)
    {
      var rel := walk[n];
      assert Same(e0, fs.entries, src + rel) && Same(e0, fs.entries, dst);
      ghost var prevE := fs.entries;
      ghost var prevD := fs.data;
      if wasEmpty {
        CopyNextFree(src, dst, walk, n, anyFailed, e0, d0, prevE, prevD);
      }
      assert Below(dst, dst + rel) by {
        assert (dst + rel)[..|dst|] == dst;
      }
      var failed := CopyEntry(fs, src, dst, rel);
      OnlyBelowStep(e0, prevE, fs.entries, dst, dst + rel);
      if wasEmpty {
        CopyStep(src, dst, walk, n, anyFailed, failed, e0, d0, prevE, prevD, fs.entries, fs.data);
      }
      anyFailed := anyFailed || failed;
    }
    assert walk[..|walk|] == walk;
  }

  /** `shutil.copytree(src, dst, dirs_exist_ok=True)`: `src` must be a directory; `dst` is
      created with its parents, then every walked entry is copied in order, failures are
      collected and reported together at the end. Only `dst`, the paths inside it and its
      missing ancestors change; into a destination that had nothing inside it, with links
      leading outside it, the copy succeeds exactly when `dst` can be created and no link
      leads nowhere, and `CopyTreeMirror` then holds. */
  method CopyTree(fs: Fs, src: Path, dst: Path, walk: seq<Path>) returns (err: Option<Fault>)
    requires fs.Valid()
    requires IsWalk(fs.entries, src, walk) && Disjoint(src, dst)
    modifies fs
    ensures fs.Valid()
    ensures OnlyAlong(old(fs.entries), fs.entries, dst)
    ensures !old(fs.IsDir(src)) ==>
      err == Some(Os(if src in old(fs.entries) then ENOTDIR else ENOENT)) && fs.entries == old(fs.entries)
    ensures NothingBelow(old(fs.entries), dst) && LinksOutside(old(fs.entries), src, dst, walk) ==>
      (err.None? <==>
        old(fs.IsDir(src)) && DirsAlong(old(fs.entries), dst)
        && forall i :: 0 <= i < |walk| ==> !BadLink(old(fs.entries), src, walk[i]))
    ensures NothingBelow(old(fs.entries), dst) && LinksOutside(old(fs.entries), src, dst, walk) && err.None? ==>
      CopyTreeMirror(fs, src, dst, walk, old(fs.entries), old(fs.data))
  {
    if src !in fs.entries {
      return Some(Os(ENOENT));
    }
    if fs.entries[src] != Dir {
      return Some(Os(ENOTDIR));
    }
    ghost var e0 := fs.entries;
    ghost var d0 := fs.data;
    ghost var wasEmpty := NothingBelow(e0, dst) && LinksOutside(e0, src, dst, walk);
    var e := fs.MakeDirs(dst);
    if e.Some? {
      return Some(Os(e.value));
    }
    ghost var e1 := fs.entries;
    assert IsPrefix(dst, dst);
    GrewAlongApart(e0, e1, src, dst, walk);
    var anyFailed := CopyWalk(fs, src, dst, walk);
    GrewThenBelow(e0, e1, fs.entries, dst);
    if wasEmpty {
      forall i | 0 <= i < |walk|
        ensures BadLink(e1, src, walk[i]) == BadLink(e0, src, walk[i])
        ensures CopyMirrored(e0, src + walk[i], dst + walk[i], fs.entries, fs.data, d0)
      {
        CopyMirroredFrame(e1, e0, src + walk[i], dst + walk[i], fs.entries, fs.data, d0, fs.entries, fs.data, d0);
      }
    }
    if anyFailed {
      return Some(CopyErrors);
    }
    err := None;
  }

  // ------------------------------------------------------------ choosing the mode

  /** `link_or_copy_tree(src, dst)`: when `src` and the directory of `dst` are on one
      device the tree is hard-linked by `hardcopy` (without copy fallback) and
      "hardlink" is reported, otherwise it is copied by `shutil.copytree` and "copy" is
      reported; a fault of either propagates. */
  method LinkOrCopyTree(fs: Fs, src: Path, dst: Path, walk: seq<Path>) returns (r: Result<Mode, Fault>)
    requires fs.Valid()
    requires IsWalk(fs.entries, src, walk) && Disjoint(src, dst)
    modifies fs
    ensures fs.Valid()
    ensures OnlyAlong(old(fs.entries), fs.entries, dst)
    ensures r.Ok? ==> (r.value == Hardlink <==> old(fs.SameFilesystem(src, Parent(dst))))
    ensures old(fs.SameFilesystem(src, Parent(dst))) && NothingBelow(old(fs.entries), dst) ==>
      && (r.Ok? <==> DirsAlong(old(fs.entries), dst))
      && (r.Ok? ==> HardTree(fs, src, dst, false, walk, old(fs.entries), old(fs.data)))
    ensures !old(fs.SameFilesystem(src, Parent(dst))) && NothingBelow(old(fs.entries), dst)
            && LinksOutside(old(fs.entries), src, dst, walk) ==>
      && (r.Ok? <==>
            old(fs.IsDir(src)) && DirsAlong(old(fs.entries), dst)
            && forall i :: 0 <= i < |walk| ==> !BadLink(old(fs.entries), src, walk[i]))
      && (r.Ok? ==> CopyTreeMirror(fs, src, dst, walk, old(fs.entries), old(fs.data)))
  {
    if !fs.SameFilesystem(src, Parent(dst)) {
      var err := CopyTree(fs, src, dst, walk);
      if err.Some? {
        return Err(err.value);
      }
      return Ok(Copy);
    }
    var err := HardCopy(fs, src, dst, false, walk);
    if err.Some? {
      return Err(err.value);
    }
    r := Ok(Hardlink);
  }

  /** Every walked regular file has a regular-file counterpart with the same contents,
      which is the very inode exactly when the link was allowed. */
  ghost predicate FilesKept(fs: Fs, src: Path, dst: Path, walk: seq<Path>,
                            e0: map<Path, Entry>, d0: map<nat, seq<bv8>>)
    reads fs
    requires forall i :: 0 <= i < |walk| ==> src + walk[i] in e0
  {
    forall i :: 0 <= i < |walk| && e0[src + walk[i]].File? ==>
      && dst + walk[i] in fs.entries && fs.entries[dst + walk[i]].File?
      && fs.entries[dst + walk[i]].ino in fs.data && e0[src + walk[i]].ino in d0
      && fs.data[fs.entries[dst + walk[i]].ino] == d0[e0[src + walk[i]].ino]
      && (fs.LinkPermitted(src + walk[i], dst + walk[i]) <==>
            fs.entries[dst + walk[i]] == e0[src + walk[i]])
  }

  /** As written, "hardlink" mode drops a walked regular file whose link is refused: it
      has no counterpart in the result, so the files are not all kept, although the mode
      reported is still "hardlink". */
  lemma HardlinkDropsRefused(fs: Fs, src: Path, dst: Path, walk: seq<Path>,
                             e0: map<Path, Entry>, d0: map<nat, seq<bv8>>, i: nat)
    requires HardTree(fs, src, dst, false, walk, e0, d0)
    requires i < |walk| && e0[src + walk[i]].File? && !fs.LinkPermitted(src + walk[i], dst + walk[i])
    ensures dst + walk[i] !in fs.entries
    ensures !FilesKept(fs, src, dst, walk, e0, d0)
  {
    assert HardMirrored(fs, e0[src + walk[i]], src + walk[i], dst + walk[i], src, dst, false,
                        fs.entries, fs.data, d0);
  }

  /** With the copy fallback on, every walked regular file is kept: the same inode when
      the link was allowed, a copy with the same contents otherwise. */
  lemma FallbackKeepsContents(fs: Fs, src: Path, dst: Path, walk: seq<Path>,
                              e0: map<Path, Entry>, d0: map<nat, seq<bv8>>)
    requires HardTree(fs, src, dst, true, walk, e0, d0)
    requires forall p :: p in e0 && e0[p].File? ==> e0[p].ino in d0
    ensures FilesKept(fs, src, dst, walk, e0, d0)
  {
    forall i | 0 <= i < |walk| && e0[src + walk[i]].File?
      ensures dst + walk[i] in fs.entries && fs.entries[dst + walk[i]].File?
      ensures fs.entries[dst + walk[i]].ino in fs.data
      ensures fs.data[fs.entries[dst + walk[i]].ino] == d0[e0[src + walk[i]].ino]
      ensures fs.LinkPermitted(src + walk[i], dst + walk[i]) <==> fs.entries[dst + walk[i]] == e0[src + walk[i]]
    {
      assert HardMirrored(fs, e0[src + walk[i]], src + walk[i], dst + walk[i], src, dst, true,
                          fs.entries, fs.data, d0);
    }
  }

  /** `link_or_copy_tree` as its description intends it ("hardlink when possible, else
      copy"): the same choice of mode, but `hardcopy` runs with its copy fallback, so in
      "hardlink" mode into a destination that had nothing inside it every walked regular
      file is kept. */
  method LinkOrCopyTreeKeepingFiles(fs: Fs, src: Path, dst: Path, walk: seq<Path>) returns (r: Result<Mode, Fault>)
    requires fs.Valid()
    requires IsWalk(fs.entries, src, walk) && Disjoint(src, dst)
    modifies fs
    ensures fs.Valid()
    ensures OnlyAlong(old(fs.entries), fs.entries, dst)
    ensures r.Ok? ==> (r.value == Hardlink <==> old(fs.SameFilesystem(src, Parent(dst))))
    ensures old(fs.SameFilesystem(src, Parent(dst))) && NothingBelow(old(fs.entries), dst) ==>
      && (r.Ok? <==> DirsAlong(old(fs.entries), dst))
      && (r.Ok? ==> HardTree(fs, src, dst, true, walk, old(fs.entries), old(fs.data)))
      && (r.Ok? ==> FilesKept(fs, src, dst, walk, old(fs.entries), old(fs.data)))
  {
    if !fs.SameFilesystem(src, Parent(dst)) {
      var err := CopyTree(fs, src, dst, walk);
      if err.Some? {
        return Err(err.value);
      }
      return Ok(Copy);
    }
    ghost var e0 := fs.entries;
    ghost var d0 := fs.data;
    assert WellFormed(e0, d0, fs.nextIno);
    var err := HardCopy(fs, src, dst, true, walk);
    if err.Some? {
      return Err(err.value);
    }
    if NothingBelow(e0, dst) {
      FallbackKeepsContents(fs, src, dst, walk, e0, d0);
    }
    r := Ok(Hardlink);
  }
}
