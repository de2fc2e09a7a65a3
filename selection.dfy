/** Deciding whether a source directory's path is short enough and, if it is not,
    choosing a short, not yet existing alias below a writable root
    (`real_len`, `candidate_roots`, `ancestor_roots`, `make_very_short`, `pick_target`). */
module Selection {
  import opened Paths
  import opened Wrappers

  /** The path length limit. */
  const MAX_LEN: nat := 51

  /** Environment variables that may name a scratch root. */
  const ENV_VARS: seq<string> := ["TMPDIR"]

  /** Name prefixes for a minted alias, in the order they are tried. */
  const PREFIXES: seq<string> := ["i.", "x.", ".i.", ".x."]

  /** Default upper bound on the length of a minted name's hex suffix. */
  const UPPER: nat := 5

  /** What the selection reads from the host: existence and write permission probes,
      `Path.resolve`, the working directory, the environment, and the hex strings
      `secrets.token_hex(k)` draws for the attempt with a given root and prefix. */
  datatype Host = Host(
    existing: set<Path>,
    writable: set<Path>,
    resolve: Path -> Path,
    cwd: Path,
    environ: map<string, string>,
    tokenHex: (Path, string, nat) -> string)

  predicate IsHexDigit(c: char) {
    '0' <= c <= '9' || 'a' <= c <= 'f'
  }

  predicate IsHex(s: string) {
    forall i :: 0 <= i < |s| ==> IsHexDigit(s[i])
  }

  /** `secrets.token_hex(k)` gives 2k lower-case hex digits. */
  ghost predicate TokensWellFormed(h: Host) {
    forall r: Path, p: string, k: nat :: |h.tokenHex(r, p, k)| == 2 * k && IsHex(h.tokenHex(r, p, k))
  }

  function Min(a: int, b: int): int {
    if a <= b then a else b
  }

  /** Python's `s[:n]`. */
  function Take(s: string, n: nat): string {
    if n <= |s| then s[..n] else s
  }

  /** The first present value of `xs`: what a loop returning at its first hit gives. */
  function FirstSome<T>(xs: seq<Option<T>>): Option<T> {
    if xs == [] then None
    else if xs[0].Some? then xs[0]
    else FirstSome(xs[1..])
  }

  /** The search finds nothing exactly when every value is absent; otherwise it returns
      the value of least index that is present. */
  lemma {:induction false} FirstSomeSpec<T>(xs: seq<Option<T>>)
    ensures FirstSome(xs).None? <==> forall i :: 0 <= i < |xs| ==> xs[i].None?
    ensures FirstSome(xs).Some? ==>
      exists i :: 0 <= i < |xs| && xs[i] == FirstSome(xs) && forall j :: 0 <= j < i ==> xs[j].None?
  {
    if xs != [] && xs[0].None? {
      FirstSomeSpec(xs[1..]);
      assert forall i :: 1 <= i < |xs| ==> xs[i] == xs[1..][i - 1];
      if FirstSome(xs[1..]).Some? {
        var i :| 0 <= i < |xs[1..]| && xs[1..][i] == FirstSome(xs[1..])
          && forall j :: 0 <= j < i ==> xs[1..][j].None?;
        assert xs[i + 1] == FirstSome(xs);
      }
    }
  }

  /** Searching two lists one after the other is searching their concatenation. */
  lemma {:induction false} FirstSomeAppend<T>(a: seq<Option<T>>, b: seq<Option<T>>)
    ensures FirstSome(a + b) == if FirstSome(a).Some? then FirstSome(a) else FirstSome(b)
  {
    if a != [] {
      assert (a + b)[0] == a[0];
      assert (a + b)[1..] == a[1..] + b;
      FirstSomeAppend(a[1..], b);
    } else {
      assert a + b == b;
    }
  }

  // ---------------------------------------------------------------- real_len

  /** `real_len`: the length of the resolved path, or of the literal path when it
      does not exist. */
  function RealLen(h: Host, p: Path): nat {
    if p in h.existing then PosixLen(h.resolve(p)) else PosixLen(p)
  }

  /** The real length counts one separator per component plus the components (1 for
      `/`), taken of what an existing path resolves to, so a symbolic link or `..` on the
      way changes it; a missing path, or one that resolves to itself, is measured as
      written. */
  lemma RealLenSpec(h: Host, p: Path)
    ensures var q := if p in h.existing then h.resolve(p) else p;
      RealLen(h, p) == if q == [] then 1 else |q| + TotalLen(q)
    ensures (p in h.existing ==> h.resolve(p) == p) ==>
      RealLen(h, p) == if p == [] then 1 else |p| + TotalLen(p)
  {
    PosixLenIsSum(if p in h.existing then h.resolve(p) else p);
  }

  // ---------------------------------------------------------- make_very_short

  /** Characters left for the suffix after the root, a separator and the prefix. */
  function Budget(rootAbs: Path, pref: string): int {
    MAX_LEN - PosixLen(rootAbs) - 1 - |pref|
  }

  /** Length of the suffix drawn for the prefix `pref`. */
  function SuffixLen(rootAbs: Path, upper: nat, pref: string): int {
    Min(upper, Budget(rootAbs, pref))
  }

  /** The suffix drawn for the prefix `pref`: `token_hex((n + 1) // 2)[:n]`. */
  function Suffix(h: Host, rootAbs: Path, upper: nat, pref: string): string
    requires Budget(rootAbs, pref) >= 1
  {
    var n := SuffixLen(rootAbs, upper, pref);
    Take(h.tokenHex(rootAbs, pref, (n + 1) / 2), n)
  }

  /** The candidate `root_abs / (pref + suffix)`. */
  function Candidate(h: Host, rootAbs: Path, upper: nat, pref: string): Path
    requires Budget(rootAbs, pref) >= 1
  {
    rootAbs + [pref + Suffix(h, rootAbs, upper, pref)]
  }

  /** One turn of the prefix loop: skip when the budget is below 1, otherwise accept the
      candidate when it fits and does not exist. */
  function Attempt(h: Host, rootAbs: Path, upper: nat, pref: string): Option<Path> {
    if Budget(rootAbs, pref) < 1 then None
    else
      var cand := Candidate(h, rootAbs, upper, pref);
      if PosixLen(cand) <= MAX_LEN && cand !in h.existing then Some(cand) else None
  }

  /** The turns of the prefix loop for the prefixes `prefs`, in order. */
  function Attempts(h: Host, rootAbs: Path, upper: nat, prefs: seq<string>): (r: seq<Option<Path>>)
    ensures |r| == |prefs|
    ensures forall k :: 0 <= k < |r| ==> r[k] == Attempt(h, rootAbs, upper, prefs[k])
  {
    if prefs == [] then [] else [Attempt(h, rootAbs, upper, prefs[0])] + Attempts(h, rootAbs, upper, prefs[1..])
  }

  /** `make_very_short(root, upper)`: the first accepted turn of the prefix loop. */
  function MakeVeryShort(h: Host, root: Path, upper: nat): Option<Path> {
    FirstSome(Attempts(h, h.resolve(root), upper, PREFIXES))
  }

  /** A prefix whose budget is at least 1 yields a candidate that is a direct child of the
      resolved root, whose name is the prefix followed by exactly `min(upper, budget)`
      hex digits, and whose length is within the limit; so the length guard never rejects
      a candidate, and only an existing candidate makes a turn fail. */
  lemma CandidateFacts(h: Host, rootAbs: Path, upper: nat, pref: string)
    requires Budget(rootAbs, pref) >= 1
    ensures var c := Candidate(h, rootAbs, upper, pref);
      && Parent(c) == rootAbs && |c| == |rootAbs| + 1
      && c[|rootAbs|] == pref + Suffix(h, rootAbs, upper, pref)
      && PosixLen(c) <= MAX_LEN
      && (rootAbs == [] ==> PosixLen(c) <= MAX_LEN - 1)
    ensures TokensWellFormed(h) ==>
      |Suffix(h, rootAbs, upper, pref)| == SuffixLen(rootAbs, upper, pref) && IsHex(Suffix(h, rootAbs, upper, pref))
    ensures Attempt(h, rootAbs, upper, pref) == if Candidate(h, rootAbs, upper, pref) in h.existing then None
                                               else Some(Candidate(h, rootAbs, upper, pref))
  {
    var c := Candidate(h, rootAbs, upper, pref);
    var name := pref + Suffix(h, rootAbs, upper, pref);
    assert Parent(c) == rootAbs by {
      assert c[..|c| - 1] == rootAbs;
    }
    ChildPosixLen(rootAbs, name);
    if rootAbs == [] {
      assert PosixLen(rootAbs) == 1;
    }
    if TokensWellFormed(h) {
      var n := SuffixLen(rootAbs, upper, pref);
      var tok := h.tokenHex(rootAbs, pref, (n + 1) / 2);
      assert |tok| == 2 * ((n + 1) / 2) && IsHex(tok);
    }
  }

  /** `make_very_short` returns None exactly when every prefix was skipped for want of
      budget or its candidate existed. */
  lemma MakeVeryShortNone(h: Host, root: Path, upper: nat)
    ensures var rootAbs := h.resolve(root);
      MakeVeryShort(h, root, upper).None? <==>
        forall j :: 0 <= j < |PREFIXES| ==>
          Budget(rootAbs, PREFIXES[j]) < 1 || Candidate(h, rootAbs, upper, PREFIXES[j]) in h.existing
  {
    var rootAbs := h.resolve(root);
    var xs := Attempts(h, rootAbs, upper, PREFIXES);
    FirstSomeSpec(xs);
    forall j | 0 <= j < |PREFIXES| && Budget(rootAbs, PREFIXES[j]) >= 1
      ensures xs[j].None? <==> Candidate(h, rootAbs, upper, PREFIXES[j]) in h.existing
    {
      CandidateFacts(h, rootAbs, upper, PREFIXES[j]);
    }
  }

  /** The turn that `make_very_short` accepts: the first turn that is not None. */
  lemma MakeVeryShortTurn(h: Host, root: Path, upper: nat) returns (j: nat)
    requires MakeVeryShort(h, root, upper).Some?
    ensures var xs := Attempts(h, h.resolve(root), upper, PREFIXES);
      && j < |PREFIXES| && xs[j] == MakeVeryShort(h, root, upper)
      && Budget(h.resolve(root), PREFIXES[j]) >= 1
      && forall k :: 0 <= k < j ==> xs[k].None?
  {
    var xs := Attempts(h, h.resolve(root), upper, PREFIXES);
    FirstSomeSpec(xs);
    j :| 0 <= j < |xs| && xs[j] == FirstSome(xs) && forall k :: 0 <= k < j ==> xs[k].None?;
  }

  /** A name `make_very_short` returns is the candidate of the first usable prefix: a
      direct child of the resolved root, named by the prefix and exactly
      `min(upper, budget)` hex digits, that fits the limit and did not exist. */
  lemma MakeVeryShortSpec(h: Host, root: Path, upper: nat)
    requires MakeVeryShort(h, root, upper).Some?
    ensures var rootAbs := h.resolve(root);
      exists j :: 0 <= j < |PREFIXES| && Budget(rootAbs, PREFIXES[j]) >= 1
        && MakeVeryShort(h, root, upper).value == Candidate(h, rootAbs, upper, PREFIXES[j])
        && (TokensWellFormed(h) ==>
              |Suffix(h, rootAbs, upper, PREFIXES[j])| == Min(upper, Budget(rootAbs, PREFIXES[j]))
              && IsHex(Suffix(h, rootAbs, upper, PREFIXES[j])))
        && (forall k :: 0 <= k < j ==> Attempt(h, rootAbs, upper, PREFIXES[k]).None?)
    ensures var rootAbs := h.resolve(root);
      var c := MakeVeryShort(h, root, upper).value;
      Parent(c) == rootAbs && |c| == |rootAbs| + 1 && PosixLen(c) <= MAX_LEN && c !in h.existing
  {
    var rootAbs := h.resolve(root);
    var j := MakeVeryShortTurn(h, root, upper);
    CandidateFacts(h, rootAbs, upper, PREFIXES[j]);
    assert MakeVeryShort(h, root, upper).value == Candidate(h, rootAbs, upper, PREFIXES[j]);
  }

  /** Below `/` the separator is already part of the root's length, so the `- 1` in the
      budget reserves a character that is never used: names minted there stay one below
      the limit. */
  lemma RootOverReserves(h: Host, root: Path, upper: nat)
    requires h.resolve(root) == []
    requires MakeVeryShort(h, root, upper).Some?
    ensures PosixLen(MakeVeryShort(h, root, upper).value) <= MAX_LEN - 1
  {
    var rootAbs := h.resolve(root);
    var j := MakeVeryShortTurn(h, root, upper);
    CandidateFacts(h, rootAbs, upper, PREFIXES[j]);
  }

  // ----------------------------------------------------------- ancestor_roots

  /** The ancestor loop keeps `cur` when its string is new and it exists and is writable. */
  predicate Keep(h: Host, cur: Path, seen: set<string>) {
    Posix(cur) !in seen && cur in h.existing && cur in h.writable
  }

  function Next(h: Host, cur: Path, seen: set<string>): set<string> {
    if Keep(h, cur, seen) then seen + {Posix(cur)} else seen
  }

  /** The ancestor loop from `cur` upwards, given the POSIX strings already `seen`:
      each writable existing ancestor not seen before, closest first, ending at `/`. */
  function AncestorScan(h: Host, cur: Path, seen: set<string>): seq<Path>
    decreases |cur|
  {
    (if Keep(h, cur, seen) then [cur] else [])
      + (if Parent(cur) == cur then [] else AncestorScan(h, Parent(cur), Next(h, cur, seen)))
  }

  function PosixSet(roots: seq<Path>): set<string> {
    set r | r in roots :: Posix(r)
  }

  /** Every root the ancestor loop keeps is an existing, writable ancestor of `cur` (and
      not `cur` itself once past it) whose string was not seen before. */
  lemma {:induction false} AncestorScanSound(h: Host, cur: Path, seen: set<string>)
    ensures forall x :: x in AncestorScan(h, cur, seen) ==>
      IsPrefix(x, cur) && x in h.existing && x in h.writable && Posix(x) !in seen
    decreases |cur|
  {
    var head: seq<Path> := if Keep(h, cur, seen) then [cur] else [];
    if Parent(cur) != cur {
      var p := Parent(cur);
      var next := Next(h, cur, seen);
      var rest := AncestorScan(h, p, next);
      assert AncestorScan(h, cur, seen) == head + rest;
      AncestorScanSound(h, p, next);
      assert cur[..|p|] == p;
      assert seen <= next;
      forall x | x in rest
        ensures IsPrefix(x, cur) && Posix(x) !in seen
      {
        assert cur[..|x|] == p[..|x|];
      }
    } else {
      assert AncestorScan(h, cur, seen) == head;
    }
  }

  /** Roots listed strictly longest first, with pairwise different strings. */
  ghost predicate Ordered(r: seq<Path>) {
    forall i, j :: 0 <= i < j < |r| ==> |r[i]| > |r[j]| && Posix(r[i]) != Posix(r[j])
  }

  /** A longer root with a new string may go in front of an ordered list. */
  lemma ConsOrdered(x: Path, rest: seq<Path>)
    requires Ordered(rest)
    requires forall y :: y in rest ==> |y| < |x| && Posix(y) != Posix(x)
    ensures Ordered([x] + rest)
  {
    forall i, j | 0 <= i < j < |[x] + rest|
      ensures |([x] + rest)[i]| > |([x] + rest)[j]| && Posix(([x] + rest)[i]) != Posix(([x] + rest)[j])
    {
      ConsPair(x, rest, i, j);
    }
  }

  /** One pair of positions of `[x] + rest`, for `ConsOrdered`. */
  lemma ConsPair(x: Path, rest: seq<Path>, i: nat, j: nat)
    requires Ordered(rest)
    requires forall y :: y in rest ==> |y| < |x| && Posix(y) != Posix(x)
    requires i < j < |rest| + 1
    ensures |([x] + rest)[i]| > |([x] + rest)[j]| && Posix(([x] + rest)[i]) != Posix(([x] + rest)[j])
  {
    ConsIndex(x, rest, j);
    if i == 0 {
      assert rest[j - 1] in rest;
    } else {
      ConsIndex(x, rest, i);
    }
  }

  /** Position `k` of `[x] + rest` is position `k - 1` of `rest`. */
  lemma ConsIndex(x: Path, rest: seq<Path>, k: nat)
    requires 0 < k <= |rest|
    ensures ([x] + rest)[k] == rest[k - 1]
  {
  }

  /** The ancestor loop keeps roots closest first, with pairwise different strings. */
  lemma {:induction false} AncestorScanOrdered(h: Host, cur: Path, seen: set<string>)
    ensures Ordered(AncestorScan(h, cur, seen))
    decreases |cur|
  {
    if Parent(cur) != cur {
      var p := Parent(cur);
      var next := Next(h, cur, seen);
      var rest := AncestorScan(h, p, next);
      AncestorScanOrdered(h, p, next);
      if Keep(h, cur, seen) {
        AncestorScanSound(h, p, next);
        assert Posix(cur) in next;
        ConsOrdered(cur, rest);
      } else {
        assert AncestorScan(h, cur, seen) == rest;
      }
    } else if Keep(h, cur, seen) {
      assert AncestorScan(h, cur, seen) == [cur];
    }
  }

  /** Every existing writable ancestor of `cur` has its string seen before or kept. */
  lemma {:induction false} AncestorScanComplete(h: Host, cur: Path, seen: set<string>)
    ensures forall k :: 0 <= k <= |cur| && cur[..k] in h.existing && cur[..k] in h.writable ==>
      Posix(cur[..k]) in seen + PosixSet(AncestorScan(h, cur, seen))
    decreases |cur|
  {
    var r := AncestorScan(h, cur, seen);
    var head: seq<Path> := if Keep(h, cur, seen) then [cur] else [];
    if Parent(cur) != cur {
      var p := Parent(cur);
      var next := Next(h, cur, seen);
      var rest := AncestorScan(h, p, next);
      assert r == head + rest;
      AncestorScanComplete(h, p, next);
      forall k | 0 <= k <= |cur| && cur[..k] in h.existing && cur[..k] in h.writable
        ensures Posix(cur[..k]) in seen + PosixSet(r)
      {
        if k < |cur| {
          assert cur[..k] == p[..k];
          assert PosixSet(rest) <= PosixSet(r);
        } else {
          assert cur[..k] == cur;
        }
      }
    } else {
      assert r == head;
      forall k | 0 <= k <= |cur| && cur[..k] in h.existing && cur[..k] in h.writable
        ensures Posix(cur[..k]) in seen + PosixSet(r)
      {
        assert cur[..k] == cur;
      }
    }
  }

  /** What `ancestor_roots` promises of the roots kept from `start` upwards. */
  ghost predicate AncestorRootsOk(h: Host, start: Path, roots: seq<Path>) {
    && (forall i :: 0 <= i < |roots| ==>
          IsPrefix(roots[i], start) && roots[i] in h.existing && roots[i] in h.writable)
    && Ordered(roots)
    && (forall k :: 0 <= k <= |start| && start[..k] in h.existing && start[..k] in h.writable ==>
          Posix(start[..k]) in PosixSet(roots))
  }

  /** The ancestor loop started with nothing seen keeps existing, writable ancestors,
      closest first, with pairwise different strings, and misses none. */
  lemma AncestorScanOk(h: Host, start: Path)
    ensures AncestorRootsOk(h, start, AncestorScan(h, start, {}))
  {
    AncestorScanSound(h, start, {});
    AncestorScanOrdered(h, start, {});
    AncestorScanComplete(h, start, {});
  }

  /** One turn of the ancestor loop: the roots kept so far, then what `cur` adds, then the
      scan from its parent, still make up the whole scan. */
  lemma ScanStep(h: Host, cur: Path, seen: set<string>, before: seq<Path>, whole: seq<Path>,
                 roots: seq<Path>, seen': set<string>)
    requires before + AncestorScan(h, cur, seen) == whole
    requires roots == (if Keep(h, cur, seen) then before + [cur] else before)
    requires seen' == Next(h, cur, seen)
    ensures Parent(cur) != cur ==> roots + AncestorScan(h, Parent(cur), seen') == whole
    ensures Parent(cur) == cur ==> roots == whole
  {
    var head: seq<Path> := if Keep(h, cur, seen) then [cur] else [];
    var rest := if Parent(cur) == cur then [] else AncestorScan(h, Parent(cur), seen');
    assert AncestorScan(h, cur, seen) == head + rest;
    assert roots == before + head;
    assert roots + rest == before + (head + rest);
  }

  /** `ancestor_roots(src)`: walks from the parent of the resolved source up to `/`,
      keeping each existing, writable directory whose POSIX string was not kept before. */
  method AncestorRoots(h: Host, src: Path) returns (roots: seq<Path>)
    ensures roots == AncestorScan(h, Parent(h.resolve(src)), {})
    ensures AncestorRootsOk(h, Parent(h.resolve(src)), roots)
  {
    roots := [];
    var seen: set<string> := {};
    var cur := Parent(h.resolve(src));
    ghost var start := cur;
    ghost var whole := AncestorScan(h, cur, {});
    while true
      invariant roots + AncestorScan(h, cur, seen) == whole
      decreases |cur|
    {
      var sp := Posix(cur);
      ghost var before := roots;
      ghost var seen0 := seen;
      if sp !in seen && cur in h.existing && cur in h.writable {
        roots := roots + [cur];
        seen := seen + {sp};
      }
      ScanStep(h, cur, seen0, before, whole, roots, seen);
      if Parent(cur) == cur {
        break;
      }
      cur := Parent(cur);
    }
    AncestorScanOk(h, start);
  }

  // ---------------------------------------------------------- candidate_roots

  /** `Path(v)` for an environment value: an absolute string as parsed, a relative one
      below the working directory (where `exists` and `os.access` look it up). */
  function PathOf(h: Host, v: string): Path {
    if IsAbs(v) then Parts(v) else h.cwd + Parts(v)
  }

  /** The roots named by the environment variables `names` that are set and non-empty,
      in order. */
  function EnvRoots(h: Host, names: seq<string>): seq<Path> {
    if names == [] then []
    else
      var ev := names[|names| - 1];
      EnvRoots(h, names[..|names| - 1])
        + (if ev in h.environ && h.environ[ev] != "" then [PathOf(h, h.environ[ev])] else [])
  }

  predicate Usable(h: Host, r: Path) {
    r in h.existing && r in h.writable
  }

  /** The roots of `roots` that exist and are writable, in order. */
  function UsableRoots(h: Host, roots: seq<Path>): seq<Path> {
    if roots == [] then []
    else
      var r := roots[|roots| - 1];
      UsableRoots(h, roots[..|roots| - 1]) + (if Usable(h, r) then [r] else [])
  }

  /** What `candidate_roots` returns. */
  function CandidateSpec(h: Host): seq<Path> {
    UsableRoots(h, EnvRoots(h, ENV_VARS) + [h.cwd])
  }

  /** The filter keeps exactly the usable roots, and a usable last root stays last. */
  lemma {:induction false} UsableRootsMembers(h: Host, roots: seq<Path>)
    ensures forall r :: r in UsableRoots(h, roots) <==> r in roots && Usable(h, r)
    ensures roots != [] && Usable(h, roots[|roots| - 1]) ==>
      UsableRoots(h, roots) != [] && UsableRoots(h, roots)[|UsableRoots(h, roots)| - 1] == roots[|roots| - 1]
  {
    if roots != [] {
      var init := roots[..|roots| - 1];
      UsableRootsMembers(h, init);
      assert roots == init + [roots[|roots| - 1]];
    }
  }

  /** The candidate roots are the usable ones among the environment's roots and the
      working directory, and a usable working directory comes last. */
  lemma CandidateSpecMembers(h: Host)
    ensures forall r :: r in CandidateSpec(h) <==> (r in EnvRoots(h, ENV_VARS) || r == h.cwd) && Usable(h, r)
    ensures Usable(h, h.cwd) ==> CandidateSpec(h) != [] && CandidateSpec(h)[|CandidateSpec(h)| - 1] == h.cwd
  {
    var all := EnvRoots(h, ENV_VARS) + [h.cwd];
    UsableRootsMembers(h, all);
    assert forall r :: r in all <==> r in EnvRoots(h, ENV_VARS) || r == h.cwd;
  }

  /** One more environment variable adds its root, when set and non-empty. */
  lemma EnvRootsStep(h: Host, names: seq<string>, i: nat)
    requires i < |names|
    ensures EnvRoots(h, names[..i + 1]) == EnvRoots(h, names[..i])
      + (if names[i] in h.environ && h.environ[names[i]] != "" then [PathOf(h, h.environ[names[i]])] else [])
  {
    assert names[..i + 1][..i] == names[..i];
  }

  /** One more root is kept by the filter exactly when it is usable. */
  lemma UsableRootsStep(h: Host, roots: seq<Path>, i: nat)
    requires i < |roots|
    ensures UsableRoots(h, roots[..i + 1]) == UsableRoots(h, roots[..i]) + (if Usable(h, roots[i]) then [roots[i]] else [])
  {
    assert roots[..i + 1][..i] == roots[..i];
  }

  /** `candidate_roots()`: the root named by `TMPDIR` (when set and non-empty) and then the
      working directory, each kept only when it exists and is writable. */
  method CandidateRoots(h: Host) returns (roots: seq<Path>)
    ensures roots == CandidateSpec(h)
    ensures forall r :: r in roots <==> (r in EnvRoots(h, ENV_VARS) || r == h.cwd) && Usable(h, r)
    ensures Usable(h, h.cwd) ==> roots != [] && roots[|roots| - 1] == h.cwd
  {
    var all: seq<Path> := [];
    for i := 0 to |ENV_VARS|
      invariant all == EnvRoots(h, ENV_VARS[..i])
    {
      var ev := ENV_VARS[i];
      EnvRootsStep(h, ENV_VARS, i);
      if ev in h.environ && h.environ[ev] != "" {
        all := all + [PathOf(h, h.environ[ev])];
      }
    }
    assert ENV_VARS[..|ENV_VARS|] == ENV_VARS;
    all := all + [h.cwd];
    roots := [];
    for i := 0 to |all|
      invariant roots == UsableRoots(h, all[..i])
    {
      UsableRootsStep(h, all, i);
      if all[i] in h.existing && all[i] in h.writable {
        roots := roots + [all[i]];
      }
    }
    assert all[..|all|] == all;
    CandidateSpecMembers(h);
  }

  // -------------------------------------------------------------- pick_target

  /** What `pick_target` decides: use the source as it is, or materialize it at a new
      short path. */
  datatype Target = Original(path: Path) | Materialize(path: Path)

  datatype PickError = NoShortWritableDirectory

  /** The first root in `roots` for which `make_very_short` mints a name. */
  function FirstFit(h: Host, roots: seq<Path>): Option<Path> {
    FirstSome(Mints(h, roots))
  }

  /** What `make_very_short` gives for each root of `roots`, in order. */
  function Mints(h: Host, roots: seq<Path>): (r: seq<Option<Path>>)
    ensures |r| == |roots|
    ensures forall i :: 0 <= i < |r| ==> r[i] == MakeVeryShort(h, roots[i], UPPER)
  {
    if roots == [] then [] else [MakeVeryShort(h, roots[0], UPPER)] + Mints(h, roots[1..])
  }

  /** `pick_target(src)`. */
  function PickTarget(h: Host, src: Path): Result<Target, PickError> {
    var srcReal := h.resolve(src);
    if RealLen(h, srcReal) < MAX_LEN then Ok(Original(srcReal))
    else match FirstFit(h, AncestorScan(h, Parent(h.resolve(srcReal)), {}))
      case Some(d) => Ok(Materialize(d))
      case None =>
        match FirstFit(h, CandidateSpec(h))
        case Some(d) => Ok(Materialize(d))
        case None => Err(NoShortWritableDirectory)
  }

  /** All roots `pick_target` may try, in the order it tries them. */
  function RootOrder(h: Host, src: Path): seq<Path> {
    AncestorScan(h, Parent(h.resolve(h.resolve(src))), {}) + CandidateSpec(h)
  }

  /** `FirstFit` picks the root of least index that mints, and finds none exactly when no
      root mints. */
  lemma FirstFitFirst(h: Host, roots: seq<Path>)
    ensures FirstFit(h, roots).None? <==>
      forall i :: 0 <= i < |roots| ==> MakeVeryShort(h, roots[i], UPPER).None?
    ensures FirstFit(h, roots).Some? ==>
      exists i :: 0 <= i < |roots| && MakeVeryShort(h, roots[i], UPPER) == FirstFit(h, roots)
        && forall j :: 0 <= j < i ==> MakeVeryShort(h, roots[j], UPPER).None?
  {
    FirstSomeSpec(Mints(h, roots));
  }

  /** Searching two lists one after the other is searching their concatenation: a root of
      the first list that mints always wins over every root of the second. */
  lemma FirstFitAppend(h: Host, a: seq<Path>, b: seq<Path>)
    ensures FirstFit(h, a + b) == if FirstFit(h, a).Some? then FirstFit(h, a) else FirstFit(h, b)
  {
    var whole := Mints(h, a + b);
    var parts := Mints(h, a) + Mints(h, b);
    forall i | 0 <= i < |whole|
      ensures whole[i] == parts[i]
    {
      if i < |a| {
        assert (a + b)[i] == a[i];
      } else {
        assert (a + b)[i] == b[i - |a|];
      }
    }
    assert whole == parts;
    FirstSomeAppend(Mints(h, a), Mints(h, b));
  }

  /** A source whose real length is below the limit is used as it is, with no root
      consulted; otherwise the result is the first minted name over the ancestor roots and
      then the candidate roots, or the error when no root mints. */
  lemma PickTargetSpec(h: Host, src: Path)
    ensures RealLen(h, h.resolve(src)) < MAX_LEN <==> PickTarget(h, src) == Ok(Original(h.resolve(src)))
    ensures RealLen(h, h.resolve(src)) >= MAX_LEN ==>
      PickTarget(h, src) == match FirstFit(h, RootOrder(h, src))
        case Some(d) => Ok(Materialize(d))
        case None => Err(NoShortWritableDirectory)
  {
    FirstFitAppend(h, AncestorScan(h, Parent(h.resolve(h.resolve(src))), {}), CandidateSpec(h));
  }

  /** A materialized target is minted below the root of least index in `RootOrder` that
      mints at all: it fits the limit, did not exist, and is a direct child of that root,
      resolved. The error comes exactly when the source is too long and no root mints. */
  lemma PickTargetMaterialized(h: Host, src: Path)
    ensures PickTarget(h, src).Ok? && PickTarget(h, src).value.Materialize? ==>
      var d := PickTarget(h, src).value.path;
      var roots := RootOrder(h, src);
      && RealLen(h, h.resolve(src)) >= MAX_LEN
      && PosixLen(d) <= MAX_LEN && d !in h.existing
      && exists i :: 0 <= i < |roots| && MakeVeryShort(h, roots[i], UPPER) == Some(d)
           && Parent(d) == h.resolve(roots[i])
           && forall j :: 0 <= j < i ==> MakeVeryShort(h, roots[j], UPPER).None?
    ensures PickTarget(h, src).Err? <==>
      RealLen(h, h.resolve(src)) >= MAX_LEN
      && forall i :: 0 <= i < |RootOrder(h, src)| ==> MakeVeryShort(h, RootOrder(h, src)[i], UPPER).None?
  {
    var roots := RootOrder(h, src);
    PickTargetSpec(h, src);
    FirstFitFirst(h, roots);
    if PickTarget(h, src).Ok? && PickTarget(h, src).value.Materialize? {
      var d := PickTarget(h, src).value.path;
      var i :| 0 <= i < |roots| && MakeVeryShort(h, roots[i], UPPER) == FirstFit(h, roots)
        && forall j :: 0 <= j < i ==> MakeVeryShort(h, roots[j], UPPER).None?;
      MakeVeryShortSpec(h, roots[i], UPPER);
    }
  }

  /** A materialized target and the resolved source lie apart, neither inside the other,
      when the source exists with its ancestors and resolves to itself: everything inside
      the source is longer than the source, which is at least `MAX_LEN` long, while a
      minted name is at most `MAX_LEN` long; and the source's ancestors exist, while a
      minted name does not. */
  lemma MaterializedApart(h: Host, src: Path)
    requires h.resolve(src) in h.existing && h.resolve(h.resolve(src)) == h.resolve(src)
    requires forall k :: 0 <= k <= |h.resolve(src)| ==> h.resolve(src)[..k] in h.existing
    ensures PickTarget(h, src).Ok? && PickTarget(h, src).value.Materialize? ==>
      !IsPrefix(h.resolve(src), PickTarget(h, src).value.path)
      && !IsPrefix(PickTarget(h, src).value.path, h.resolve(src))
  {
    var s := h.resolve(src);
    if PickTarget(h, src).Ok? && PickTarget(h, src).value.Materialize? {
      var d := PickTarget(h, src).value.path;
      PickTargetMaterialized(h, src);
      RealLenSpec(h, s);
      PosixLenIsSum(s);
      if IsPrefix(s, d) {
        PosixLenBelow(s, d);
      }
    }
  }
}
