/** An abstract POSIX filesystem: a tree of directories, regular files (by inode) and
    symbolic links, with the calls the engine makes on it (`mkdir`, `unlink`, `rmdir`,
    `symlink`, `link`, `shutil.copy2`). */
module FileSystem {
  import opened Paths
  import opened Wrappers

  /** What a path holds: a directory, a regular file (its inode) or a symbolic link (its
      literal text). */
  datatype Entry = Dir | File(ino: nat) | Symlink(target: string)

  /** The error numbers the modelled calls can fail with (`SameFile` stands for
      `shutil.SameFileError`). */
  datatype Errno = ENOENT | EEXIST | ENOTDIR | EISDIR | ENOTEMPTY | EBUSY | EPERM | EXDEV | SameFile

  /** Every prefix of `p` that exists in `m` is a directory. */
  ghost predicate DirsAlong(m: map<Path, Entry>, p: Path) {
    forall q :: IsPrefix(q, p) && q in m ==> m[q] == Dir
  }

  /** Some entry of `m` sits directly in `p`. */
  predicate HasChildOf(m: map<Path, Entry>, p: Path) {
    exists q :: q in m && q != [] && Parent(q) == p
  }

  /** Every entry but the root sits in a directory. */
  ghost predicate Closed(m: map<Path, Entry>) {
    forall p :: p in m && p != [] ==> Parent(p) in m && m[Parent(p)] == Dir
  }

  /** In a closed tree every ancestor of an entry exists. */
  lemma {:induction false} AncestorsPresent(m: map<Path, Entry>, q: Path)
    requires Closed(m) && q in m
    ensures forall r :: IsPrefix(r, q) ==> r in m
    decreases |q|
  {
    if q != [] {
      AncestorsPresent(m, Parent(q));
      forall r | IsPrefix(r, q)
        ensures r in m
      {
        if |r| < |q| {
          assert IsPrefix(r, Parent(q));
        } else {
          assert r == q;
        }
      }
    }
  }

  /** Nothing exists strictly below `p`. */
  ghost predicate NothingBelow(m: map<Path, Entry>, p: Path) {
    forall q :: q in m ==> !Below(p, q)
  }

  /** The root is a directory, every other entry sits in a directory, every file's inode
      has contents, and inode numbers from `next` on are unused. */
  ghost predicate WellFormed(m: map<Path, Entry>, data: map<nat, seq<bv8>>, next: nat) {
    && [] in m && m[[]] == Dir
    && Closed(m)
    && (forall p :: p in m && m[p].File? ==> m[p].ino in data)
    && (forall i :: i in data ==> i < next)
  }

  /** A new directory inside a directory keeps the tree well formed. */
  lemma AddDirWellFormed(m: map<Path, Entry>, data: map<nat, seq<bv8>>, next: nat, q: Path)
    requires WellFormed(m, data, next)
    requires q !in m && Parent(q) in m && m[Parent(q)] == Dir
    ensures WellFormed(m[q := Dir], data, next)
  {
  }

  /** `now` is `before` with the prefixes of `p` shorter than `k` added as directories;
      those that were in `before` already were directories. */
  ghost predicate DirsUpTo(before: map<Path, Entry>, now: map<Path, Entry>, p: Path, k: nat) {
    && (forall q :: q in now <==> q in before || (IsPrefix(q, p) && |q| < k))
    && (forall q :: q in before ==> now[q] == before[q])
    && (forall q :: IsPrefix(q, p) && |q| < k ==> q in now && now[q] == Dir)
  }

  /** Creating the next prefix of `p`, or finding it a directory, extends `DirsUpTo`. */
  lemma DirsUpToStep(before: map<Path, Entry>, now: map<Path, Entry>, p: Path, k: nat)
    requires DirsUpTo(before, now, p, k) && 1 <= k <= |p|
    requires p[..k] !in now || now[p[..k]] == Dir
    ensures Parent(p[..k]) in now && now[Parent(p[..k])] == Dir
    ensures DirsUpTo(before, now[p[..k] := Dir], p, k + 1)
  {
    var q := p[..k];
    assert Parent(q) == p[..k - 1];
    assert IsPrefix(p[..k - 1], p);
    forall r | IsPrefix(r, p) && |r| < k + 1
      ensures r in now[q := Dir]
    {
      if |r| == k {
        assert r == q;
      }
    }
  }

  /** Meeting a prefix of `p` that is not a directory: nothing was created yet, and the
      directories along `p` were not all there. */
  lemma DirsUpToBlocked(before: map<Path, Entry>, now: map<Path, Entry>, p: Path, k: nat)
    requires DirsUpTo(before, now, p, k) && Closed(before) && 1 <= k <= |p|
    requires p[..k] in now && now[p[..k]] != Dir
    ensures now == before && !DirsAlong(before, p)
  {
    var q := p[..k];
    assert IsPrefix(q, p);
    AncestorsPresent(before, q);
    forall r | IsPrefix(r, p) && |r| < k
      ensures r in before
    {
      assert IsPrefix(r, q);
    }
  }

  class Fs {
    /** The directory tree. */
    var entries: map<Path, Entry>
    /** Contents of each inode. */
    var data: map<nat, seq<bv8>>
    /** The next inode number to hand out. */
    var nextIno: nat
    /** `os.stat(p).st_dev`. */
    const device: Path -> nat
    /** Regular files `os.link` is refused on for lack of permission. */
    const linkRefused: set<Path>
    /** `Path.resolve(strict=False)` over the source tree: the absolute path with every
        symbolic link on the way followed and ".." collapsed. */
    const resolve: Path -> Path

    /** The root is a directory, every other entry sits in a directory, every file's inode
        has contents, and fresh inode numbers are unused. */
    ghost predicate Valid()
      reads this
    {
      WellFormed(entries, data, nextIno)
    }

    constructor (device: Path -> nat, linkRefused: set<Path>, resolve: Path -> Path)
      ensures Valid()
      ensures entries == map[[] := Dir] && data == map[]
      ensures this.device == device && this.linkRefused == linkRefused && this.resolve == resolve
    {
      entries := map[[] := Dir];
      data := map[];
      nextIno := 0;
      this.device := device;
      this.linkRefused := linkRefused;
      this.resolve := resolve;
    }

    predicate IsDir(p: Path)
      reads this
    {
      p in entries && entries[p] == Dir
    }

    /** Some entry sits directly in `p`. */
    predicate HasChild(p: Path)
      reads this
    {
      HasChildOf(entries, p)
    }

    /** `Path.mkdir(exist_ok=existOk)` without `parents`: creates `p` in an existing
        directory; an existing `p` is accepted only when it is a directory and `existOk`. */
    method Mkdir(p: Path, existOk: bool) returns (err: Option<Errno>)
      requires Valid()
      modifies this
      ensures Valid()
      ensures data == old(data) && nextIno == old(nextIno)
      ensures err.None? <==>
        if p in old(entries) then existOk && old(entries)[p] == Dir
        else Parent(p) in old(entries) && old(entries)[Parent(p)] == Dir
      ensures err.None? ==> entries == old(entries)[p := Dir]
      ensures err.Some? ==> entries == old(entries)
    {
      if p in entries {
        if existOk && entries[p] == Dir {
          return None;
        }
        return Some(EEXIST);
      }
      if Parent(p) !in entries {
        return Some(ENOENT);
      }
      if entries[Parent(p)] != Dir {
        return Some(ENOTDIR);
      }
      entries := entries[p := Dir];
      err := None;
    }

    /** `Path.mkdir(parents=True, exist_ok=True)` / `os.makedirs(p, exist_ok=True)`:
        creates every missing prefix of `p`; it fails, creating nothing, when some prefix
        exists and is not a directory. */
    method MakeDirs(p: Path) returns (err: Option<Errno>)
      requires Valid()
      modifies this
      ensures Valid()
      ensures data == old(data) && nextIno == old(nextIno)
      ensures err.None? <==> DirsAlong(old(entries), p)
      ensures err.None? ==> forall q :: q in entries <==> q in old(entries) || IsPrefix(q, p)
      ensures err.None? ==> forall q :: q in old(entries) ==> entries[q] == old(entries)[q]
      ensures err.None? ==> forall q :: IsPrefix(q, p) ==> q in entries && entries[q] == Dir
      ensures err.Some? ==> entries == old(entries)
    {
      ghost var before := entries;
      var k := 1;
      while k <= |p|
        invariant 1 <= k <= |p| + 1
        invariant data == old(data) && nextIno == old(nextIno)
        invariant WellFormed(entries, data, nextIno)
        invariant DirsUpTo(before, entries, p, k)
      {
        var q := p[..k];
        if q in entries && entries[q] != Dir {
          DirsUpToBlocked(before, entries, p, k);
          return Some(if k == |p| then EEXIST else ENOTDIR);
        }
        DirsUpToStep(before, entries, p, k);
        if q !in entries {
          AddDirWellFormed(entries, data, nextIno, q);
          entries := entries[q := Dir];
        } else {
          assert entries[q := Dir] == entries;
        }
        k := k + 1;
      }
      assert IsPrefix(p, p);
      err := None;
    }

    /** `Path.unlink()`: removes a file or symbolic link; a directory gives `EISDIR`, a
        missing path `ENOENT`. */
    method Unlink(p: Path) returns (err: Option<Errno>)
      requires Valid()
      modifies this
      ensures Valid()
      ensures data == old(data) && nextIno == old(nextIno)
      ensures err == if p !in old(entries) then Some(ENOENT)
                     else if old(entries)[p] == Dir then Some(EISDIR)
                     else None
      ensures err.None? ==> entries == old(entries) - {p}
      ensures err.Some? ==> entries == old(entries)
    {
      if p !in entries {
        return Some(ENOENT);
      }
      if entries[p] == Dir {
        return Some(EISDIR);
      }
      assert !HasChildOf(entries, p);
      entries := entries - {p};
      err := None;
    }

    /** `Path.rmdir()`: removes an empty directory other than the root. */
    method Rmdir(p: Path) returns (err: Option<Errno>)
      requires Valid()
      modifies this
      ensures Valid()
      ensures data == old(data) && nextIno == old(nextIno)
      ensures err == if p !in old(entries) then Some(ENOENT)
                     else if old(entries)[p] != Dir then Some(ENOTDIR)
                     else if p == [] then Some(EBUSY)
                     else if HasChildOf(old(entries), p) then Some(ENOTEMPTY)
                     else None
      ensures err.None? ==> entries == old(entries) - {p}
      ensures err.Some? ==> entries == old(entries)
    {
      if p !in entries {
        return Some(ENOENT);
      }
      if entries[p] != Dir {
        return Some(ENOTDIR);
      }
      if p == [] {
        return Some(EBUSY);
      }
      if HasChild(p) {
        return Some(ENOTEMPTY);
      }
      entries := entries - {p};
      err := None;
    }

    /** `os.symlink(target, p)`: creates a link at a free `p` in an existing directory. */
    method Symlink(target: string, p: Path) returns (err: Option<Errno>)
      requires Valid()
      modifies this
      ensures Valid()
      ensures data == old(data) && nextIno == old(nextIno)
      ensures err.None? <==>
        p !in old(entries) && Parent(p) in old(entries) && old(entries)[Parent(p)] == Dir
      ensures err.None? ==> entries == old(entries)[p := Entry.Symlink(target)]
      ensures err.Some? ==> entries == old(entries)
    {
      if p in entries {
        return Some(EEXIST);
      }
      if Parent(p) !in entries {
        return Some(ENOENT);
      }
      if entries[Parent(p)] != Dir {
        return Some(ENOTDIR);
      }
      entries := entries[p := Entry.Symlink(target)];
      err := None;
    }

    /** `same_filesystem(a, b)`: both paths exist and lie on one device; a missing path
        gives false. */
    predicate SameFilesystem(a: Path, b: Path)
      reads this
    {
      a in entries && b in entries && device(a) == device(b)
    }

    /** `os.link` is allowed from the file `s` into the directory of `d`: both are on
        one device and the file is not protected. */
    predicate LinkPermitted(s: Path, d: Path)
      reads this
    {
      device(s) == device(Parent(d)) && s !in linkRefused
    }

    /** `os.link(s, d)` for a regular file `s`: `d` becomes a second name of the same
        inode; it fails across devices (`EXDEV`) and on a protected file (`EPERM`). */
    method Link(s: Path, d: Path) returns (err: Option<Errno>)
      requires Valid()
      requires s in entries && entries[s].File?
      modifies this
      ensures Valid()
      ensures data == old(data) && nextIno == old(nextIno)
      ensures err.None? <==>
        d !in old(entries) && Parent(d) in old(entries) && old(entries)[Parent(d)] == Dir
        && LinkPermitted(s, d)
      ensures err.None? ==> entries == old(entries)[d := old(entries)[s]]
      ensures err.Some? ==> entries == old(entries)
    {
      if d in entries {
        return Some(EEXIST);
      }
      if Parent(d) !in entries {
        return Some(ENOENT);
      }
      if entries[Parent(d)] != Dir {
        return Some(ENOTDIR);
      }
      if device(s) != device(Parent(d)) {
        return Some(EXDEV);
      }
      if s in linkRefused {
        return Some(EPERM);
      }
      entries := entries[d := entries[s]];
      err := None;
    }

    /** Where `shutil.copy2(s, d)` writes: into `d` under the source's name when `d` is a
        directory, otherwise at `d`. */
    function CopyDest(s: Path, d: Path): Path
      reads this
    {
      if d in entries && entries[d] == Dir && s != [] then d + [s[|s| - 1]] else d
    }

    /** `shutil.copy2(s, d)` for a regular file `s`: a free destination gets a new inode
        with the same contents, an existing file is overwritten in place (its inode keeps
        its number), a directory or the same inode is refused. */
    method Copy2(s: Path, d: Path) returns (err: Option<Errno>)
      requires Valid()
      requires s in entries && entries[s].File?
      modifies this
      ensures Valid()
      ensures var t := old(CopyDest(s, d));
        err.None? <==>
          if t in old(entries) then old(entries)[t].File? && old(entries)[t] != old(entries)[s]
          else Parent(t) in old(entries) && old(entries)[Parent(t)] == Dir
      ensures var t := old(CopyDest(s, d));
        err.None? && t !in old(entries) ==>
          && entries == old(entries)[t := File(old(nextIno))]
          && data == old(data)[old(nextIno) := old(data)[old(entries)[s].ino]]
          && nextIno == old(nextIno) + 1
      ensures var t := old(CopyDest(s, d));
        err.None? && t in old(entries) ==>
          && entries == old(entries)
          && data == old(data)[old(entries)[t].ino := old(data)[old(entries)[s].ino]]
          && nextIno == old(nextIno)
      ensures err.Some? ==> entries == old(entries) && data == old(data) && nextIno == old(nextIno)
    {
      var t := CopyDest(s, d);
      var content := data[entries[s].ino];
      if t in entries {
        match entries[t]
        case Dir => return Some(EISDIR);
        case Symlink(_) => return Some(EEXIST);
        case File(j) =>
          if j == entries[s].ino {
            return Some(SameFile);
          }
          data := data[j := content];
          return None;
      }
      if Parent(t) !in entries {
        return Some(ENOENT);
      }
      if entries[Parent(t)] != Dir {
        return Some(ENOTDIR);
      }
      entries := entries[t := File(nextIno)];
      data := data[nextIno := content];
      nextIno := nextIno + 1;
      err := None;
    }
  }
}
