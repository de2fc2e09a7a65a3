# smart_link_iedb: a verified model of the path-shortening engine

`bin/smart_link_iedb.py` makes sure a directory (an IEDB database) can be reached
through a short path. If the source's real path is already below the limit
(`MAX_LEN = 51`), the path is used as it is. Otherwise the script mints a new, short,
not yet existing name. It looks below the source's writable ancestors first, then below
`$TMPDIR` and the working directory. It then materialises the tree there: hard links
when source and destination share a device, a whole-tree copy otherwise.

The model has six modules:

- `Paths` (`paths.dfy`). A path is a sequence of components and `/` is `[]`. It defines
  POSIX strings and their length, splitting and joining on `/`, and lexical
  normalisation in the manner of `os.path.normpath`.
- `Selection` (`selection.dfy`). It covers `real_len`, `candidate_roots`,
  `ancestor_roots`, `make_very_short` and `pick_target`.
  - A `Host` value supplies everything these read from the machine: existence and
    write-permission probes, `Path.resolve`, the working directory, the environment,
    and the hex strings `secrets.token_hex` draws.
  - The two loops that accumulate state (`ancestor_roots`, `candidate_roots`) are
    methods proved against specification functions.
  - The two first-match searches (`make_very_short`, `pick_target`) are functions over
    a generic first-hit search, `FirstSome`.
- `Symlinks` (`symlinks.dfy`). It covers `_mapped_symlink_target`, with
  `os.path.relpath` written out.
- `FileSystem` (`filesystem.dfy`). The class `Fs` is a mutable directory tree:
  - `entries` maps each path to a directory, a regular file (an inode) or a symbolic
    link;
  - `data` holds inode contents and `nextIno` is the next inode number to hand out;
  - `device` is `st_dev` and `linkRefused` marks files that `os.link` may not link;
  - `resolve` is `Path.resolve(strict=False)`, a given function that follows the
    symbolic links of the source tree.

  It has methods for the OS calls the script makes.
- `Mirror` (`mirror.dfy`). It covers `_replace_with_symlink`, `hardcopy`, the
  `shutil.copytree` branch, and `link_or_copy_tree`, which chooses between them.
  - `same_filesystem` is the predicate `FileSystem.Fs.SameFilesystem`. Its contract is
    stated through `Mirror.LinkOrCopyTree`.
  - The order in which `os.walk` visits the source is a parameter, `walk`. It must list
    every entry below `src` once, with parents first. The top-down walk of the script
    is one such order.

## Model

| member | source | states |
|---|---|---|
| `Selection.RealLenSpec` | bin/smart_link_iedb.py:16-20 | The real length is one separator per component plus the components' lengths (1 for `/`). It is measured on the resolved path when the path exists and on the literal path otherwise. A path that resolves to itself is measured as written. |
| `FileSystem.Fs.MakeDirs` | bin/smart_link_iedb.py:22-23 | `mkdir(parents=True, exist_ok=True)` succeeds exactly when every existing prefix of the path is a directory. It then adds exactly the missing prefixes, as directories, and changes nothing else. On failure nothing changes. |
| `Selection.UsableRootsMembers` | bin/smart_link_iedb.py:38 | The filter keeps exactly the roots that exist and are writable. A usable last root stays last. |
| `Selection.CandidateSpecMembers` | bin/smart_link_iedb.py:31-38 | The candidate roots are exactly the usable roots among the set, non-empty environment roots and the working directory. A usable working directory comes last. |
| `Selection.CandidateRoots` | bin/smart_link_iedb.py:31-38 | The method's two loops return the specification list: its members are exactly the usable environment roots and the working directory, and a usable working directory comes last. |
| `Selection.AncestorScanSound` | bin/smart_link_iedb.py:44-53 | Every root the ancestor loop keeps is an ancestor of the start (or the start itself), exists, is writable, and has a POSIX string not seen before. |
| `Selection.ConsOrdered` | bin/smart_link_iedb.py:48-50 | A longer root with a new string may go in front of a list ordered longest first with distinct strings. |
| `Selection.AncestorScanOrdered` | bin/smart_link_iedb.py:44-53 | The kept roots are strictly closest first, and no POSIX string appears twice. |
| `Selection.AncestorScanComplete` | bin/smart_link_iedb.py:44-53 | Every existing, writable ancestor of the start has its string kept, or seen before. |
| `Selection.AncestorScanOk` | bin/smart_link_iedb.py:40-54 | Started with nothing seen, the scan is sound, ordered closest first, duplicate-free and complete. |
| `Selection.ScanStep` | bin/smart_link_iedb.py:47-53 | One turn of the loop preserves "kept so far, followed by the scan from `cur`, is the whole scan". At `/` (where the parent is the path itself) the kept roots are the whole scan. |
| `Selection.AncestorRoots` | bin/smart_link_iedb.py:40-54 | The `while True` loop from the parent of the resolved source up to `/` terminates. It returns exactly the scan, so the roots are existing, writable ancestors, closest first, with distinct strings, and none is missed. |
| `Selection.FirstSomeSpec` | bin/smart_link_iedb.py:62-75 | A loop that returns at its first hit finds nothing exactly when every turn fails. Otherwise it returns the hit of least index, and every earlier turn failed. |
| `Selection.FirstSomeAppend` | bin/smart_link_iedb.py:167-179 | Two such loops one after the other behave as one loop over the concatenation. |
| `Selection.CandidateFacts` | bin/smart_link_iedb.py:63-72 | For a prefix with budget at least 1: the candidate is a direct child of the resolved root; its name is the prefix followed by exactly `min(upper, budget)` hex digits; its POSIX length is within `MAX_LEN` (and within `MAX_LEN - 1` below `/`). So the length guard never rejects a candidate, and a turn fails only when the candidate exists. |
| `Selection.MakeVeryShortNone` | bin/smart_link_iedb.py:62-75 | `make_very_short` returns None exactly when every prefix was skipped for want of budget or its candidate already existed. |
| `Selection.MakeVeryShortTurn` | bin/smart_link_iedb.py:62-73 | The accepted turn is a prefix with budget at least 1, and every earlier prefix's turn failed. |
| `Selection.MakeVeryShortSpec` | bin/smart_link_iedb.py:57-75 | A minted name is the candidate of the first prefix that works, in the order `i.`, `x.`, `.i.`, `.x.`. Its suffix is exactly `min(upper, budget)` hex digits. It is a direct child of the resolved root, within `MAX_LEN`, and did not exist. |
| `Selection.RootOverReserves` | bin/smart_link_iedb.py:59-64 | Below `/` the separator is already counted in the root's length, so a minted name there is at most `MAX_LEN - 1` long: one character of the budget is never used. |
| `Selection.FirstFitFirst` | bin/smart_link_iedb.py:168-177 | The root loop picks the root of least index whose `make_very_short` mints a name. It finds none exactly when no root mints. |
| `Selection.FirstFitAppend` | bin/smart_link_iedb.py:167-177 | Trying the ancestor roots and then the candidate roots is one search over their concatenation. A fitting ancestor root always wins over every candidate root. |
| `Selection.PickTargetSpec` | bin/smart_link_iedb.py:155-179 | A source whose real length is below `MAX_LEN` (strictly) is returned as it is, resolved, with no root consulted, and only then. Otherwise the result is the first minted name over the ancestor roots followed by the candidate roots, or the error. |
| `Selection.MaterializedApart` | bin/smart_link_iedb.py:155-179 | For an existing source that resolves to itself, a materialised target and the resolved source lie apart, neither inside the other. Everything inside the source is longer than `MAX_LEN`, while a minted name is at most `MAX_LEN`; the source's ancestors exist, while a minted name did not. |
| `Selection.PickTargetMaterialized` | bin/smart_link_iedb.py:163-179 | A materialised target comes from the root of least index that mints. It is a direct child of that resolved root, at most `MAX_LEN` long (a bound that differs from the strict one for the original), and did not exist. The error comes exactly when the source is too long and no root mints. |
| `Symlinks.CommonLen` | bin/smart_link_iedb.py:84 | The shared leading part of two paths, as `relpath` computes it, is maximal: it is a common prefix, and the next components differ or one path ends. |
| `Symlinks.MappedTarget` | bin/smart_link_iedb.py:78-86 | The target is the absolute text as parsed, or the relative text joined to the link's directory and passed through `resolve(strict=False)`. A link whose target is not inside the source root keeps its text unchanged. |
| `Symlinks.RelSegsResolve` | bin/smart_link_iedb.py:84 | The components `relpath` writes are slash-free. Read from the start directory, they lead to the normalised path. |
| `Symlinks.RelPathResolves` | bin/smart_link_iedb.py:84 | The text `relpath` returns is relative, and joined to the start directory and normalised it names the path (with "." for the same place). |
| `Symlinks.MappedTargetRoundTrip` | bin/smart_link_iedb.py:78-86 | For a link whose target (resolved through `resolve(strict=False)` when relative) lies inside the source root, the mapped text is relative. Joined to the new link's directory and normalised, it names that target re-rooted under the destination root. This holds for any `resolve` that returns canonical paths. |
| `FileSystem.Fs.Mkdir` | bin/smart_link_iedb.py:121 | `mkdir(exist_ok)` succeeds exactly when the path is a directory already (with `exist_ok`), or is free with a directory as parent. It then adds only that directory; otherwise nothing changes. |
| `FileSystem.Fs.Unlink` | bin/smart_link_iedb.py:90-93 | `unlink` gives `ENOENT` for a missing path and `EISDIR` for a directory. Otherwise it removes exactly that entry. |
| `FileSystem.Fs.Rmdir` | bin/smart_link_iedb.py:95 | `rmdir` removes exactly an empty directory other than `/`. Otherwise it gives the matching error and changes nothing. |
| `FileSystem.Fs.Symlink` | bin/smart_link_iedb.py:100 | `symlink` succeeds exactly at a free path whose parent is a directory, and adds only the link with the given text. |
| `FileSystem.Fs.Link` | bin/smart_link_iedb.py:136 | `os.link` succeeds exactly at a free path in a directory on the file's device, for a file not refused. The new name shares the inode. |
| `FileSystem.Fs.Copy2` | bin/smart_link_iedb.py:139 | `copy2` writes to `d/name` when `d` is a directory. A free destination gets a new inode with equal contents, and an existing other file has its contents replaced. A directory, a link, or the same inode is refused and nothing changes. |
| `Mirror.ReplaceWithSymlink` | bin/smart_link_iedb.py:88-100 | Succeeds exactly when the slot is not `/`, sits in a directory, and is not a non-empty directory. It then holds exactly a link with the given text and nothing else changes. A non-empty directory raises the refusal and is left untouched. |
| `Mirror.LinkFile` | bin/smart_link_iedb.py:131-139 | The regular-file step changes only the slot. Without `fallback_copy` it never fails. Into a free slot the result is: the same inode when the link is allowed; else a new inode with equal contents when `fallback_copy` is set; else nothing. |
| `Mirror.HardCopyEntry` | bin/smart_link_iedb.py:114-139 | One entry: directories are recreated, links get the mapped text, files are linked or copied. Only the slot and paths inside it change. Into a free slot the step succeeds and leaves exactly the mirrored entry. |
| `Mirror.SlotFree` | bin/smart_link_iedb.py:107-111 | Filling the destination in walk order, the slot of the next entry is free: it was not written before and its parent directory was created earlier. |
| `Mirror.HardStep` | bin/smart_link_iedb.py:107-139 | Mirroring the next walked entry into its free slot keeps every earlier entry mirrored and adds nothing else below the destination. |
| `Mirror.HardWalk` | bin/smart_link_iedb.py:107-139 | The walk changes only paths strictly inside `dst`. Into a destination that had nothing inside it, it succeeds and every walked entry is mirrored, nothing else is inside, and inode contents are kept. |
| `Mirror.HardCopy` | bin/smart_link_iedb.py:102-139 | Only `dst`, paths inside it and its missing ancestors change. Into an empty destination, `hardcopy` succeeds exactly when `dst` can be created, and then the tree is mirrored entry by entry (`HardTree`). |
| `Mirror.CopyEntry` | bin/smart_link_iedb.py:148 | One `copytree` entry: a directory is created, a file copied, a link replaced by a copy of its target. Only the slot changes, and into a free slot it fails exactly for a link that leads nowhere. |
| `Mirror.CopyStep` | bin/smart_link_iedb.py:148 | Copying the next walked entry advances the copied prefix of the walk and the record of failures by one entry. |
| `Mirror.CopyWalk` | bin/smart_link_iedb.py:148 | Only paths strictly inside `dst` change. Into an empty destination, a failure is reported exactly when some link leads nowhere, and every walked entry is copied. |
| `Mirror.CopyTree` | bin/smart_link_iedb.py:148 | A source that is not a directory gives `ENOTDIR`/`ENOENT` and changes nothing. Only `dst`, paths inside it and its missing ancestors change. Into an empty destination, the copy succeeds exactly when `src` is a directory, `dst` can be created and no link leads nowhere, and the tree is then copied. |
| `Mirror.GrewAlongApart` | bin/smart_link_iedb.py:105 | Creating the directories along `dst` leaves the walked source entries, the targets of links leading elsewhere, and the emptiness of `dst` untouched. |
| `Mirror.LinkOrCopyTree` | bin/smart_link_iedb.py:141-152 | "hardlink" is reported exactly when `src` and the parent of `dst` exist on one device, and "copy" otherwise. On one device into an empty destination it succeeds exactly when `dst` can be created, and the tree is mirrored without copy fallback. Otherwise the `copytree` outcome holds. |
| `Mirror.HardlinkDropsRefused` | bin/smart_link_iedb.py:137-139 | After "hardlink" mode, a walked regular file whose link was refused has no counterpart in the destination, so the files are not all kept. |
| `Mirror.FallbackKeepsContents` | bin/smart_link_iedb.py:137-139 | With `fallback_copy` every walked regular file has a file counterpart with equal contents, and it is the very inode exactly when linking was allowed. |
| `Mirror.LinkOrCopyTreeKeepingFiles` | bin/smart_link_iedb.py:141-152 | The same choice of mode, with `hardcopy` run with its copy fallback. In "hardlink" mode into an empty destination every walked regular file is kept with its contents. |

## Left out

- `main` and the command line are not modelled: argument parsing, printing the target and mode, and exit codes.
- The host and OS oracles are taken as given:
  - `secrets.token_hex` is an injected function of resolved root, prefix and byte count (`Host.tokenHex`). Its output shape is assumed only where `TokensWellFormed` is stated.
  - Selection.PickTargetMaterialized: because `Host.tokenHex` is keyed by (resolved root, prefix, byte count), a root that appears twice in the search order gets the same draws both times. This happens, for example, when the working directory is also an ancestor. The script draws afresh on each call, so a second try at the same root could mint a name where the first try's candidate existed. "Error exactly when no root mints" is proved for the keyed draws only.
  - `Path.resolve`, `exists`, `os.access` and `os.environ` are fields of `Host`.
  - `os.stat().st_dev` is `Fs.device`.
  - Which files `os.link` refuses for lack of permission is `Fs.linkRefused`.
- The selection phase and the filesystem phase are separate models. The filesystem phase works on resolved, canonical paths, so the `resolve()` calls of `hardcopy` (lines 103-104) and `link_or_copy_tree` (line 147) are the identity there.
- The `os.walk` order is not modelled: it is any order that lists every entry below `src` once, with parents first, as the `walk` parameter.
- Errors raised while listing a directory (which `os.walk` ignores) are not modelled, and neither are races between checks and creates.
- Mirror.HardCopy: the mirror is promised only when `dst` had nothing inside it beforehand, which `pick_target` ensures by minting a name that did not exist. Into a populated `dst` only the frame (what may change) is stated.
- Mirror.HardCopy: `src` and `dst` are required to be apart, with neither inside the other. `Selection.MaterializedApart` proves that `pick_target` only produces such a pair. A destination given any other way, inside the source, is outside the model: the walk would then descend into the directory it is filling.
- Mirror.HardWalk: the per-directory `dest_root.mkdir(parents=True, exist_ok=True)` of line 111 is not a separate step. With parents walked first, it always finds the directory that line 121 created.
- Mirror.CopyEntry, Mirror.CopyWalk: the simplifications of link following below apply to each entry and to the walk as well.
- Mirror.CopyTree: `copytree` follows links (`symlinks=False`), but the model resolves a link lexically and one level deep.
  - A link to a link is treated like a dangling one.
  - A link to a directory yields an empty directory: the linked directory's contents are not copied.
  - The model requires the link targets to lie outside `dst` before it promises the copy.
- Mirror.CopyTree: metadata (`copystat`, permissions, times) and bytes-level copying are not modelled. A copy is a new inode with equal contents.
- FileSystem.Fs.Copy2: a destination that is a symbolic link is refused, while `copy2` would write through it. Into the empty destination the model reasons about, no such link exists.
- FileSystem.Fs.Link: only regular files are linked, as in the script. The script links only entries that are not symlinks and not directories.
- FileSystem.Fs.SameFilesystem: the model looks up `src` as given. The script calls `os.stat` on the unresolved `src`, which follows links to the same place.
- Selection.PickTarget: the text of the error (which mentions 57 characters) is not modelled. The limit used is the constant `MAX_LEN = 51`.
- Selection.AncestorRoots: the check `cur is None` (line 45) is dead, because `Path.parent` never gives None, and is not modelled.
- Symlinks.MappedTarget: `resolve(strict=False)` is the given function `Fs.resolve`, fixed for the whole run. It stands for resolution over the source tree, which the mirror never changes. Its workings (symbolic-link loops, missing tails) are not modelled.
- Symlinks.MappedTargetRoundTrip: the round trip is proved for a `resolve` that returns canonical paths (no empty, ".", ".." or slashed components). An absolute link text is taken as parsed, ".." included, as the script does.
- Mirror.LinkOrCopyTree: the function's docstring (lines 143-144) and the command's description (line 183) promise "hardlink when possible, else copy". The code swallows a refused link (lines 137-139) and always reports "hardlink" (line 152). The model follows the code; see Findings.

## Findings

| source | as written | input that shows it | evidently intended | confidence | as-written member | corrected member |
|---|---|---|---|---|---|---|
| bin/smart_link_iedb.py:151 | `link_or_copy_tree` calls `hardcopy(src, dst)` with `fallback_copy` left False, so a regular file that `os.link` refuses (for example `EPERM` under protected hard links) is skipped silently and "hardlink" is still reported | `src` and the parent of the minted `dst` on one device; one regular file in `src` that the link call refuses | "hardlink when possible, else copy" (the command's description): every file is present in the materialised tree, by link or by copy | medium, not executed | `Mirror.HardlinkDropsRefused` (about `Mirror.LinkOrCopyTree`) | `Mirror.LinkOrCopyTreeKeepingFiles` with `Mirror.FallbackKeepsContents` |
