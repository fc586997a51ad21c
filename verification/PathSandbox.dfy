/**
 * `pathSandbox.ts`: the walk up to the deepest existing ancestor, over a file system with symbolic
 * links, and the containment check on what it returns.
 */
module PathSandbox {
  import opened Text

  /** An absolute path as its names below the root. */
  type Path = seq<string>

  datatype Node = Dir | File | Link(absolute: bool, target: seq<string>)

  /** What is physically there: every node under the path that reaches it without following a link. */
  type FS = map<Path, Node>

  predicate IsName(s: string) {
    s != "" && s != "." && s != ".." && '/' !in s
  }

  /** What `path.resolve` guarantees: no empty, `.` or `..` component is left. */
  predicate Proper(p: Path) {
    forall i :: 0 <= i < |p| ==> IsName(p[i])
  }

  function Parent(p: Path): Path {
    if p == [] then [] else p[..|p| - 1]
  }

  /** A node has a proper path, and a directory above it. */
  predicate NodeOk(fs: FS, p: Path) {
    Proper(p) && Parent(p) in fs && fs[Parent(p)] == Dir
  }

  ghost predicate WellFormed(fs: FS) {
    && [] in fs && fs[[]] == Dir
    && forall p {:trigger NodeOk(fs, p)} :: p in fs ==> NodeOk(fs, p)
  }

  predicate IsDir(fs: FS, p: Path) {
    p in fs && fs[p] == Dir
  }

  // ---- Pathname resolution ---------------------------------------------------------------------

  /** Where a resolution stands, and how many more links it may follow. */
  datatype At = At(path: Path, links: nat)

  /**
   * Pathname resolution, POSIX.1-2017 Base Definitions section 4.13: `todo` resolved from the
   * directory `dir`, following at most `links` symbolic links; None stands for ENOENT, ENOTDIR and
   * ELOOP.
   */
  function Walk(fs: FS, dir: Path, todo: seq<string>, links: nat): Option<At>
    decreases links, |todo|
  {
    if todo == [] then Some(At(dir, links))
    else if !IsDir(fs, dir) then None
    else if todo[0] == "" || todo[0] == "." then Walk(fs, dir, todo[1..], links)
    else if todo[0] == ".." then Walk(fs, Parent(dir), todo[1..], links)
    else
      var q := dir + [todo[0]];
      if q !in fs then None
      else if fs[q].Link? then
        if links == 0 then None
        else Walk(fs, if fs[q].absolute then [] else dir, fs[q].target + todo[1..], links - 1)
      else Walk(fs, q, todo[1..], links)
  }

  /** `realpath`: where the path leads once every link is followed. */
  function RealPath(fs: FS, limit: nat, p: Path): Option<At> {
    Walk(fs, [], p, limit)
  }

  /** `lstat` says symbolic link: the parent is resolved, the last name is not followed. */
  predicate IsLink(fs: FS, limit: nat, p: Path) {
    && p != [] && RealPath(fs, limit, Parent(p)).Some?
    && var q := RealPath(fs, limit, Parent(p)).value.path + [p[|p| - 1]];
       q in fs && fs[q].Link?
  }

  // ---- The walk up -----------------------------------------------------------------------------

  /** How much of `p` is left when the walk up ends: the longest part that resolves or is a link. */
  function Stop(fs: FS, limit: nat, p: Path): (k: nat)
    ensures k <= |p|
  {
    if p == [] || RealPath(fs, limit, p).Some? || IsLink(fs, limit, p) then |p| else Stop(fs, limit, Parent(p))
  }

  function ToReal(fs: FS, limit: nat, p: Path): Result<Path> {
    var k := Stop(fs, limit, p);
    match RealPath(fs, limit, p[..k])
    case Some(at) => Ok(at.path + p[k..])
    case None => if IsLink(fs, limit, p[..k]) then Err else Ok(p)
  }

  /** `toRealPath`. */
  method ToRealPath(fs: FS, limit: nat, resolved: Path) returns (r: Result<Path>)
    ensures r == ToReal(fs, limit, resolved)
  {
    var existing := resolved;
    var suffix: Path := [];
    while true
      invariant resolved == existing + suffix
      invariant Stop(fs, limit, resolved) == Stop(fs, limit, existing)
      decreases |existing|
    {
      var found := RealPath(fs, limit, existing);
      assert resolved[..|existing|] == existing && resolved[|existing|..] == suffix;
      if found.Some? {
        return Ok(found.value.path + suffix);
      }
      if IsLink(fs, limit, existing) {
        return Err;
      }
      if existing == [] {
        return Ok(resolved);
      }
      suffix := [existing[|existing| - 1]] + suffix;
      existing := Parent(existing);
    }
  }

  // ---- Facts about resolution --------------------------------------------------------------------

  lemma {:induction false} WalkSplits(fs: FS, dir: Path, a: seq<string>, b: seq<string>, n: nat)
    ensures Walk(fs, dir, a + b, n) ==
      var w := Walk(fs, dir, a, n); if w.None? then None else Walk(fs, w.value.path, b, w.value.links)
    decreases n, |a|
  {
    if a == [] {
      assert a + b == b;
    } else {
      assert (a + b)[1..] == a[1..] + b;
      var q := dir + [a[0]];
      if a[0] == "" || a[0] == "." {
        WalkSplits(fs, dir, a[1..], b, n);
      } else if a[0] == ".." {
        WalkSplits(fs, Parent(dir), a[1..], b, n);
      } else if q in fs && fs[q].Link? {
        if n > 0 {
          WalkSplits(fs, if fs[q].absolute then [] else dir, fs[q].target + a[1..], b, n - 1);
          assert fs[q].target + (a[1..] + b) == (fs[q].target + a[1..]) + b;
        }
      } else {
        WalkSplits(fs, q, a[1..], b, n);
      }
    }
  }

  predicate Lands(fs: FS, p: Path) {
    p in fs && !fs[p].Link?
  }

  lemma {:induction false} WalkLands(fs: FS, dir: Path, todo: seq<string>, n: nat)
    requires WellFormed(fs) && Lands(fs, dir)
    ensures var w := Walk(fs, dir, todo, n); w.Some? ==> Lands(fs, w.value.path)
    decreases n, |todo|
  {
    if todo != [] && IsDir(fs, dir) {
      var q := dir + [todo[0]];
      assert NodeOk(fs, dir);
      if todo[0] == "" || todo[0] == "." {
        WalkLands(fs, dir, todo[1..], n);
      } else if todo[0] == ".." {
        WalkLands(fs, Parent(dir), todo[1..], n);
      } else if q in fs && fs[q].Link? {
        if n > 0 {
          WalkLands(fs, if fs[q].absolute then [] else dir, fs[q].target + todo[1..], n - 1);
        }
      } else if q in fs {
        WalkLands(fs, q, todo[1..], n);
      }
    }
  }

  /** `later` is `fs` with files and directories created, and no link among them. */
  ghost predicate Grown(fs: FS, later: FS) {
    && (forall p :: p in fs ==> p in later && later[p] == fs[p])
    && (forall p :: p in later && p !in fs ==> !later[p].Link?)
  }

  /** A resolution that succeeds keeps its answer when more links may be followed or files appear. */
  lemma {:induction false} WalkKeeps(fs: FS, later: FS, dir: Path, todo: seq<string>, n: nat, m: nat)
    requires Grown(fs, later) && n <= m && Walk(fs, dir, todo, n).Some?
    ensures Walk(later, dir, todo, m) ==
      Some(At(Walk(fs, dir, todo, n).value.path, Walk(fs, dir, todo, n).value.links + m - n))
    decreases n, |todo|
  {
    if todo != [] {
      var q := dir + [todo[0]];
      if todo[0] == "" || todo[0] == "." {
        WalkKeeps(fs, later, dir, todo[1..], n, m);
      } else if todo[0] == ".." {
        WalkKeeps(fs, later, Parent(dir), todo[1..], n, m);
      } else if fs[q].Link? {
        WalkKeeps(fs, later, if fs[q].absolute then [] else dir, fs[q].target + todo[1..], n - 1, m - 1);
      } else {
        WalkKeeps(fs, later, q, todo[1..], n, m);
      }
    }
  }

  /** No name on the way from `dir` to `dir + names` is a link. */
  ghost predicate NoLinkBelow(fs: FS, dir: Path, names: Path) {
    forall k :: 0 < k <= |names| ==> dir + names[..k] in fs ==> !fs[dir + names[..k]].Link?
  }

  /** Where no link is met, resolution takes the path as it is written, or fails. */
  lemma {:induction false} WalkStraight(fs: FS, dir: Path, names: Path, n: nat)
    requires Proper(names) && NoLinkBelow(fs, dir, names)
    ensures Walk(fs, dir, names, n) == Some(At(dir + names, n)) || Walk(fs, dir, names, n) == None
    ensures WellFormed(fs) && dir + names in fs ==> Walk(fs, dir, names, n) == Some(At(dir + names, n))
    decreases |names|
  {
    if names == [] {
      assert dir + names == dir;
    } else {
      var q := dir + [names[0]];
      assert dir + names[..1] == q;
      assert q + names[1..] == dir + names;
      forall k | 0 < k <= |names[1..]| && q + names[1..][..k] in fs
        ensures !fs[q + names[1..][..k]].Link?
      {
        assert q + names[1..][..k] == dir + names[..k + 1];
      }
      WalkStraight(fs, q, names[1..], n);
      if WellFormed(fs) && dir + names in fs {
        AncestorsAreDirs(fs, dir, names);
        AncestorsAreDirs(fs, q, names[1..]);
      }
    }
  }

  lemma {:induction false} AncestorsAreDirs(fs: FS, p: Path, more: Path)
    requires WellFormed(fs) && p + more in fs
    ensures p in fs && (more != [] ==> fs[p] == Dir)
    decreases |more|
  {
    if more == [] {
      assert p + more == p;
    } else {
      var up := more[..|more| - 1];
      assert NodeOk(fs, p + more) && Parent(p + more) == p + up;
      AncestorsAreDirs(fs, p, up);
      if up == [] {
        assert p + up == p;
      }
    }
  }

  lemma PrefixResolves(fs: FS, limit: nat, p: Path, k: nat)
    requires k <= |p|
    ensures RealPath(fs, limit, p).Some? ==> RealPath(fs, limit, p[..k]).Some?
  {
    WalkSplits(fs, [], p[..k], p[k..], limit);
    assert p[..k] + p[k..] == p;
  }

  // ---- What the walk up stops at -------------------------------------------------------------------

  /** Everything longer than the stopping point neither resolves nor is a link. */
  lemma {:induction false} BeyondStop(fs: FS, limit: nat, p: Path, k: nat)
    requires Stop(fs, limit, p) < k <= |p|
    ensures RealPath(fs, limit, p[..k]).None? && !IsLink(fs, limit, p[..k])
    decreases |p|
  {
    if k == |p| {
      assert p[..k] == p;
    } else {
      BeyondStop(fs, limit, Parent(p), k);
      assert Parent(p)[..k] == p[..k];
    }
  }

  lemma {:induction false} AtStop(fs: FS, limit: nat, p: Path)
    ensures var e := p[..Stop(fs, limit, p)]; RealPath(fs, limit, e).Some? || IsLink(fs, limit, e)
    decreases |p|
  {
    var k := Stop(fs, limit, p);
    if k == |p| {
      assert p[..k] == p;
    } else {
      AtStop(fs, limit, Parent(p));
      assert Parent(p)[..k] == p[..k];
    }
  }

  /** A name that neither resolves nor is a link is not there at all. */
  lemma NotThere(fs: FS, base: Path, name: string, links: nat)
    requires WellFormed(fs) && IsName(name) && Walk(fs, base, [name], links).None?
    requires !(base + [name] in fs && fs[base + [name]].Link?)
    ensures base + [name] !in fs
  {
    var q := base + [name];
    assert Parent(q) == base && [name][1..] == [];
    assert q in fs ==> NodeOk(fs, q);
  }

  /** Just beyond a resolved stopping point there is nothing. */
  lemma NothingBeyond(fs: FS, limit: nat, p: Path)
    requires WellFormed(fs) && Proper(p)
    requires Stop(fs, limit, p) < |p| && RealPath(fs, limit, p[..Stop(fs, limit, p)]).Some?
    ensures var k := Stop(fs, limit, p); RealPath(fs, limit, p[..k]).value.path + [p[k]] !in fs
  {
    var k := Stop(fs, limit, p);
    BeyondStop(fs, limit, p, k + 1);
    OneNameOn(fs, limit, p[..k], p[k], p[..k + 1]);
  }

  lemma OneNameOn(fs: FS, limit: nat, e: Path, name: string, p: Path)
    requires WellFormed(fs) && IsName(name) && p == e + [name]
    requires RealPath(fs, limit, e).Some? && RealPath(fs, limit, p).None? && !IsLink(fs, limit, p)
    ensures RealPath(fs, limit, e).value.path + [name] !in fs
  {
    var at := RealPath(fs, limit, e).value;
    assert Parent(p) == e;
    WalkSplits(fs, [], e, [name], limit);
    NotThere(fs, at.path, name, at.links);
  }

  /** The result, split at the stopping point: a physical path, then names that do not exist. */
  lemma RealThenMissing(fs: FS, limit: nat, p: Path) returns (k: nat, at: At)
    requires WellFormed(fs) && Proper(p) && ToReal(fs, limit, p).Ok?
    ensures k <= |p| && RealPath(fs, limit, p[..k]) == Some(at) && ToReal(fs, limit, p) == Ok(at.path + p[k..])
    ensures Lands(fs, at.path) && (k < |p| ==> at.path + [p[k]] !in fs)
  {
    k := Stop(fs, limit, p);
    AtStop(fs, limit, p);
    at := RealPath(fs, limit, p[..k]).value;
    WalkLands(fs, [], p[..k], limit);
    if k < |p| {
      NothingBeyond(fs, limit, p);
    }
  }

  /** Below a missing name nothing exists, so in `fs` or anything grown from it there is no link there. */
  lemma NoLinkInMissing(fs: FS, later: FS, base: Path, names: Path)
    requires WellFormed(fs) && Grown(fs, later) && (names != [] ==> base + [names[0]] !in fs)
    ensures NoLinkBelow(later, base, names)
  {
    forall k | 0 < k <= |names| && base + names[..k] in later
      ensures !later[base + names[..k]].Link?
    {
      if base + names[..k] in fs {
        assert base + names[..k] == (base + [names[0]]) + names[1..k];
        AncestorsAreDirs(fs, base + [names[0]], names[1..k]);
      }
    }
  }

  // ---- Main results ------------------------------------------------------------------------------------

  ghost predicate LinkFree(fs: FS, r: Path) {
    forall k :: 0 <= k <= |r| ==> r[..k] in fs ==> !fs[r[..k]].Link?
  }

  lemma ResultIsLinkFree(fs: FS, limit: nat, p: Path)
    requires WellFormed(fs) && Proper(p) && ToReal(fs, limit, p).Ok?
    ensures Proper(ToReal(fs, limit, p).value) && LinkFree(fs, ToReal(fs, limit, p).value)
  {
    var k, at := RealThenMissing(fs, limit, p);
    var r := at.path + p[k..];
    assert NodeOk(fs, at.path);
    NoLinkInMissing(fs, fs, at.path, p[k..]);
    forall j | 0 <= j <= |r| && r[..j] in fs
      ensures !fs[r[..j]].Link?
    {
      if j <= |at.path| {
        assert r[..j] + at.path[j..] == at.path;
        AncestorsAreDirs(fs, r[..j], at.path[j..]);
        assert j == |at.path| ==> r[..j] == at.path;
      } else {
        assert r[..j] == at.path + p[k..][..j - |at.path|];
      }
    }
  }

  /** Where a link-free path is cut, the part resolves to itself or not at all, and is no link. */
  lemma CutOfLinkFree(fs: FS, limit: nat, r: Path, k: nat)
    requires WellFormed(fs) && Proper(r) && LinkFree(fs, r) && k <= |r|
    ensures !IsLink(fs, limit, r[..k])
    ensures RealPath(fs, limit, r[..k]).Some? ==> RealPath(fs, limit, r[..k]).value.path == r[..k]
  {
    StraightPrefix(fs, limit, r, k);
    if k > 0 {
      StraightPrefix(fs, limit, r, k - 1);
      assert Parent(r[..k]) == r[..k - 1] && r[..k - 1] + [r[k - 1]] == r[..k];
    }
  }

  /** A link-free path is already canonical. */
  lemma LinkFreeIsFixed(fs: FS, limit: nat, r: Path)
    requires WellFormed(fs) && Proper(r) && LinkFree(fs, r)
    ensures ToReal(fs, limit, r) == Ok(r)
  {
    var k := Stop(fs, limit, r);
    AtStop(fs, limit, r);
    CutOfLinkFree(fs, limit, r, k);
    assert r[..k] + r[k..] == r;
  }

  lemma StraightPrefix(fs: FS, limit: nat, r: Path, k: nat)
    requires Proper(r) && LinkFree(fs, r) && k <= |r|
    ensures RealPath(fs, limit, r[..k]) == Some(At(r[..k], limit)) || RealPath(fs, limit, r[..k]) == None
  {
    forall j | 0 < j <= |r[..k]| && [] + r[..k][..j] in fs
      ensures !fs[[] + r[..k][..j]].Link?
    {
      assert [] + r[..k][..j] == r[..j];
    }
    WalkStraight(fs, [], r[..k], limit);
    assert [] + r[..k] == r[..k];
  }

  /** What `toRealPath` returns holds no link and is its own canonical form. */
  lemma Canonical(fs: FS, limit: nat, p: Path)
    requires WellFormed(fs) && Proper(p) && ToReal(fs, limit, p).Ok?
    ensures var r := ToReal(fs, limit, p).value; Proper(r) && LinkFree(fs, r) && ToReal(fs, limit, r) == Ok(r)
  {
    ResultIsLinkFree(fs, limit, p);
    LinkFreeIsFixed(fs, limit, ToReal(fs, limit, p).value);
  }

  /** A link that leads nowhere: dangling, or part of a cycle. */
  predicate BrokenLink(fs: FS, limit: nat, p: Path) {
    IsLink(fs, limit, p) && RealPath(fs, limit, p).None?
  }

  /** A path is refused exactly when some part of it is a link that leads nowhere. */
  lemma RefusedExactlyForBrokenLinks(fs: FS, limit: nat, p: Path)
    ensures ToReal(fs, limit, p).Err? <==> exists k :: 0 <= k <= |p| && BrokenLink(fs, limit, p[..k])
  {
    var s := Stop(fs, limit, p);
    if k :| 0 <= k <= |p| && BrokenLink(fs, limit, p[..k]) {
      if s < k {
        BeyondStop(fs, limit, p, k);
      } else {
        PrefixOf(p, s, k);
        PrefixResolves(fs, limit, p[..s], k);
        AtStop(fs, limit, p);
      }
    }
  }

  lemma PrefixOf(p: Path, s: nat, k: nat)
    requires k <= s <= |p|
    ensures p[..s][..k] == p[..k]
  {
  }

  /**
   * Whatever is created afterwards, as long as it is no link, the path that was checked leads to
   * the canonical path that was returned and nowhere else, however many links the system follows.
   */
  lemma LandsWhereChecked(fs: FS, later: FS, limit: nat, kernelLimit: nat, p: Path)
    requires WellFormed(fs) && Grown(fs, later) && Proper(p)
    requires ToReal(fs, limit, p).Ok? && RealPath(later, kernelLimit, p).Some?
    ensures RealPath(later, kernelLimit, p).value.path == ToReal(fs, limit, p).value
  {
    var k, at := RealThenMissing(fs, limit, p);
    LandsFrom(fs, later, p, k, at, limit, limit + kernelLimit);
    FewerLinksToo(later, p, kernelLimit, limit + kernelLimit, at.path + p[k..]);
  }

  lemma FewerLinksToo(fs: FS, p: Path, n: nat, m: nat, r: Path)
    requires n <= m && RealPath(fs, n, p).Some?
    requires RealPath(fs, m, p).Some? ==> RealPath(fs, m, p).value.path == r
    ensures RealPath(fs, n, p).value.path == r
  {
    MoreLinks(fs, p, n, m);
  }

  lemma LandsFrom(fs: FS, later: FS, p: Path, k: nat, at: At, n: nat, m: nat)
    requires WellFormed(fs) && Grown(fs, later) && Proper(p) && k <= |p| && n <= m
    requires RealPath(fs, n, p[..k]) == Some(at) && (k < |p| ==> at.path + [p[k]] !in fs)
    ensures RealPath(later, m, p).Some? ==> RealPath(later, m, p).value.path == at.path + p[k..]
  {
    var links := at.links + m - n;
    WalkKeeps(fs, later, [], p[..k], n, m);
    Joined(later, p, k, At(at.path, links), m);
    StraightOn(fs, later, at.path, p[k..], links);
  }

  /** From the physical part on, the names are taken as they are written. */
  lemma StraightOn(fs: FS, later: FS, base: Path, names: Path, n: nat)
    requires WellFormed(fs) && Grown(fs, later) && Proper(names) && (names != [] ==> base + [names[0]] !in fs)
    ensures Walk(later, base, names, n).Some? ==> Walk(later, base, names, n).value.path == base + names
  {
    NoLinkInMissing(fs, later, base, names);
    WalkStraight(later, base, names, n);
  }

  lemma Joined(fs: FS, p: Path, k: nat, at: At, n: nat)
    requires k <= |p| && Walk(fs, [], p[..k], n) == Some(at)
    ensures Walk(fs, [], p, n) == Walk(fs, at.path, p[k..], at.links)
  {
    WalkSplits(fs, [], p[..k], p[k..], n);
    assert p[..k] + p[k..] == p;
  }

  lemma MoreLinks(fs: FS, p: Path, n: nat, m: nat)
    requires n <= m && Walk(fs, [], p, n).Some?
    ensures Walk(fs, [], p, m).Some? && Walk(fs, [], p, m).value.path == Walk(fs, [], p, n).value.path
  {
    WalkKeeps(fs, fs, [], p, n, m);
  }

  // ---- Refused for what, without a budget ---------------------------------------------------------------

  datatype Outcome = Arrived(path: Path) | Missing | Cycle

  function Links(fs: FS): set<Path> {
    set p | p in fs && fs[p].Link?
  }

  /** Where the target of the link `q` starts from. */
  function Base(fs: FS, q: Path): Path
    requires q in fs && fs[q].Link?
  {
    if fs[q].absolute then [] else Parent(q)
  }

  /**
   * Pathname resolution with no budget: every link is resolved on its own, then the rest; a link met
   * while it is itself being resolved (`open`) is a cycle.
   */
  function Resolve(fs: FS, dir: Path, todo: seq<string>, open: set<Path>): Outcome
    decreases Links(fs) - open, |todo|
  {
    if todo == [] then Arrived(dir)
    else if !IsDir(fs, dir) then Missing
    else if todo[0] == "" || todo[0] == "." then Resolve(fs, dir, todo[1..], open)
    else if todo[0] == ".." then Resolve(fs, Parent(dir), todo[1..], open)
    else
      var q := dir + [todo[0]];
      if q !in fs then Missing
      else if fs[q].Link? then
        if q in open then Cycle
        else
          assert q in Links(fs);
          var target := Resolve(fs, Base(fs, q), fs[q].target, open + {q});
          if target.Arrived? then Resolve(fs, target.path, todo[1..], open) else target
      else Resolve(fs, q, todo[1..], open)
  }

  /** What following the link at the head of `todo` does to a walk. */
  lemma ThroughLink(fs: FS, dir: Path, todo: seq<string>, n: nat)
    requires todo != [] && IsDir(fs, dir) && todo[0] != "" && todo[0] != "." && todo[0] != ".."
    requires var q := dir + [todo[0]]; q in fs && fs[q].Link?
    ensures var q := dir + [todo[0]];
      Walk(fs, dir, todo, n) ==
        if n == 0 then None
        else
          var w := Walk(fs, Base(fs, q), fs[q].target, n - 1);
          if w.None? then None else Walk(fs, w.value.path, todo[1..], w.value.links)
  {
    var q := dir + [todo[0]];
    assert Parent(q) == dir;
    if n > 0 {
      WalkSplits(fs, Base(fs, q), fs[q].target, todo[1..], n - 1);
    }
  }

  /** A resolution that arrives does so within some number of links, and from there on in every larger budget. */
  lemma {:induction false} ArrivesWithin(fs: FS, dir: Path, todo: seq<string>, open: set<Path>) returns (cost: nat)
    requires Resolve(fs, dir, todo, open).Arrived?
    ensures forall n: nat :: n >= cost ==> Walk(fs, dir, todo, n) == Some(At(Resolve(fs, dir, todo, open).path, n - cost))
    decreases Links(fs) - open, |todo|
  {
    if todo == [] {
      cost := 0;
    } else if todo[0] == "" || todo[0] == "." {
      cost := ArrivesWithin(fs, dir, todo[1..], open);
    } else if todo[0] == ".." {
      cost := ArrivesWithin(fs, Parent(dir), todo[1..], open);
    } else {
      var q := dir + [todo[0]];
      if fs[q].Link? {
        assert q in Links(fs);
        var first := ArrivesWithin(fs, Base(fs, q), fs[q].target, open + {q});
        var there := Resolve(fs, Base(fs, q), fs[q].target, open + {q}).path;
        var second := ArrivesWithin(fs, there, todo[1..], open);
        cost := 1 + first + second;
        forall n: nat | n >= cost
          ensures Walk(fs, dir, todo, n) == Some(At(Resolve(fs, dir, todo, open).path, n - cost))
        {
          ThroughLink(fs, dir, todo, n);
        }
      } else {
        cost := ArrivesWithin(fs, q, todo[1..], open);
      }
    }
  }

  /** A budgeted walk that succeeds ends where the resolution without a budget arrives. */
  lemma SameEnd(fs: FS, dir: Path, todo: seq<string>, open: set<Path>, n: nat)
    requires Resolve(fs, dir, todo, open).Arrived? && Walk(fs, dir, todo, n).Some?
    ensures Walk(fs, dir, todo, n).value.path == Resolve(fs, dir, todo, open).path
  {
    var cost := ArrivesWithin(fs, dir, todo, open);
    WalkKeeps(fs, fs, dir, todo, n, n + cost);
  }

  lemma LinksAreSpent(fs: FS, dir: Path, todo: seq<string>, n: nat)
    requires Walk(fs, dir, todo, n).Some?
    ensures Walk(fs, dir, todo, n).value.links <= n
    decreases n, |todo|
  {
  }

  /** Some open link is resolved by a walk with fewer than `n` links. */
  ghost predicate OpenResolves(fs: FS, open: set<Path>, n: nat) {
    exists q, m: nat :: q in open && q in fs && fs[q].Link? && m < n && Walk(fs, Base(fs, q), fs[q].target, m).Some?
  }

  lemma OpenResolvesMore(fs: FS, open: set<Path>, n: nat, m: nat)
    requires OpenResolves(fs, open, n) && n <= m
    ensures OpenResolves(fs, open, m)
  {
  }

  /**
   * Where a resolution fails, no budget helps: a walk that succeeded anyway would have resolved one
   * of the open links on a smaller budget, and at the start no link is open.
   */
  lemma {:induction false} FailsWithin(fs: FS, dir: Path, todo: seq<string>, open: set<Path>, n: nat)
    requires !Resolve(fs, dir, todo, open).Arrived? && Walk(fs, dir, todo, n).Some?
    ensures OpenResolves(fs, open, n)
    decreases Links(fs) - open, |todo|, n
  {
    if todo[0] == "" || todo[0] == "." {
      FailsWithin(fs, dir, todo[1..], open, n);
    } else if todo[0] == ".." {
      FailsWithin(fs, Parent(dir), todo[1..], open, n);
    } else {
      var q := dir + [todo[0]];
      if fs[q].Link? {
        ThroughLink(fs, dir, todo, n);
        FailsAtLink(fs, q, todo[1..], open, n);
      } else {
        FailsWithin(fs, q, todo[1..], open, n);
      }
    }
  }

  lemma {:induction false} FailsAtLink(fs: FS, q: Path, rest: seq<string>, open: set<Path>, n: nat)
    requires q in fs && fs[q].Link? && n > 0
    requires q in open || (var t := Resolve(fs, Base(fs, q), fs[q].target, open + {q}); !t.Arrived? || !Resolve(fs, t.path, rest, open).Arrived?)
    requires var w := Walk(fs, Base(fs, q), fs[q].target, n - 1);
      w.Some? && Walk(fs, w.value.path, rest, w.value.links).Some?
    ensures OpenResolves(fs, open, n)
    decreases Links(fs) - open, |rest|, n + 1
  {
    var w := Walk(fs, Base(fs, q), fs[q].target, n - 1).value;
    if q in open {
      assert n - 1 < n && Walk(fs, Base(fs, q), fs[q].target, n - 1).Some?;
    } else {
      assert q in Links(fs);
      var t := Resolve(fs, Base(fs, q), fs[q].target, open + {q});
      if t.Arrived? {
        SameEnd(fs, Base(fs, q), fs[q].target, open + {q}, n - 1);
        LinksAreSpent(fs, Base(fs, q), fs[q].target, n - 1);
        FailsWithin(fs, t.path, rest, open, w.links);
        OpenResolvesMore(fs, open, w.links, n);
      } else {
        TargetFails(fs, q, open, n - 1);
        OpenResolvesMore(fs, open, n - 1, n);
      }
    }
  }

  /** A target that fails while `q` is open: by descent on the budget it is another open link that resolves. */
  lemma {:induction false} TargetFails(fs: FS, q: Path, open: set<Path>, n: nat)
    requires q in fs && fs[q].Link? && q !in open
    requires !Resolve(fs, Base(fs, q), fs[q].target, open + {q}).Arrived? && Walk(fs, Base(fs, q), fs[q].target, n).Some?
    ensures OpenResolves(fs, open, n)
    decreases Links(fs) - open, 0, n
  {
    assert q in Links(fs);
    FailsWithin(fs, Base(fs, q), fs[q].target, open + {q}, n);
    var p, m: nat :| p in open + {q} && p in fs && fs[p].Link? && m < n && Walk(fs, Base(fs, p), fs[p].target, m).Some?;
    if p == q {
      TargetFails(fs, q, open, m);
      OpenResolvesMore(fs, open, m, n);
    }
  }

  /** What a path leads to, budgets apart. */
  function Leads(fs: FS, p: Path): Outcome {
    Resolve(fs, [], p, {})
  }

  lemma NeverWithin(fs: FS, p: Path, n: nat)
    requires !Leads(fs, p).Arrived?
    ensures RealPath(fs, n, p).None?
  {
    if RealPath(fs, n, p).Some? {
      FailsWithin(fs, [], p, {}, n);
    }
  }

  /** `RealPath` with this budget fails on the parts of `p` exactly where the path leads nowhere. */
  ghost predicate Enough(fs: FS, p: Path, limit: nat) {
    forall k :: 0 <= k <= |p| ==> (RealPath(fs, limit, p[..k]).Some? <==> Leads(fs, p[..k]).Arrived?)
  }

  lemma EnoughHere(fs: FS, p: Path, limit: nat)
    requires Leads(fs, p).Arrived? ==> RealPath(fs, limit, p).Some?
    requires p != [] ==> Enough(fs, Parent(p), limit)
    ensures Enough(fs, p, limit)
  {
    forall k | 0 <= k <= |p|
      ensures RealPath(fs, limit, p[..k]).Some? <==> Leads(fs, p[..k]).Arrived?
    {
      if k == |p| {
        assert p[..k] == p;
        if !Leads(fs, p).Arrived? {
          NeverWithin(fs, p, limit);
        }
      } else {
        assert Parent(p)[..k] == p[..k];
      }
    }
  }

  lemma {:induction false} SomeBudgetIsEnough(fs: FS, p: Path) returns (enough: nat)
    ensures forall limit: nat :: limit >= enough ==> Enough(fs, p, limit)
    decreases |p|
  {
    var here, before: nat := 0, 0;
    if Leads(fs, p).Arrived? {
      here := ArrivesWithin(fs, [], p, {});
    }
    if p != [] {
      before := SomeBudgetIsEnough(fs, Parent(p));
    }
    enough := if before > here then before else here;
    forall limit: nat | limit >= enough
      ensures Enough(fs, p, limit)
    {
      EnoughHere(fs, p, limit);
    }
  }

  /** `lstat` says symbolic link, budgets apart. */
  predicate NamesLink(fs: FS, p: Path) {
    && p != [] && Leads(fs, Parent(p)).Arrived?
    && var q := Leads(fs, Parent(p)).path + [p[|p| - 1]];
       q in fs && fs[q].Link?
  }

  /** A link to something that is not there, or to itself through other links. */
  predicate DanglingOrCyclic(fs: FS, p: Path) {
    NamesLink(fs, p) && !Leads(fs, p).Arrived?
  }

  lemma BrokenIsDanglingOrCyclic(fs: FS, p: Path, limit: nat, k: nat)
    requires Enough(fs, p, limit) && k <= |p|
    ensures BrokenLink(fs, limit, p[..k]) <==> DanglingOrCyclic(fs, p[..k])
  {
    if k > 0 && Leads(fs, p[..k - 1]).Arrived? {
      SameEnd(fs, [], p[..k - 1], {}, limit);
    }
    assert k > 0 ==> Parent(p[..k]) == p[..k - 1];
  }

  /**
   * As long as the system follows enough links, a path is refused exactly when some part of it is a
   * link whose target is not there or that comes back to a link still being resolved.
   */
  lemma RefusedExactlyForDanglingOrCyclic(fs: FS, p: Path) returns (enough: nat)
    ensures forall limit: nat :: limit >= enough ==>
      (ToReal(fs, limit, p).Err? <==> exists k :: 0 <= k <= |p| && DanglingOrCyclic(fs, p[..k]))
  {
    enough := SomeBudgetIsEnough(fs, p);
    forall limit: nat | limit >= enough
      ensures ToReal(fs, limit, p).Err? <==> exists k :: 0 <= k <= |p| && DanglingOrCyclic(fs, p[..k])
    {
      RefusedExactlyForBrokenLinks(fs, limit, p);
      forall k | 0 <= k <= |p|
        ensures BrokenLink(fs, limit, p[..k]) <==> DanglingOrCyclic(fs, p[..k])
      {
        BrokenIsDanglingOrCyclic(fs, p, limit, k);
      }
    }
  }

  // ---- Containment, on the strings the source compares ---------------------------------------------------

  function Slashed(p: Path): string {
    if p == [] then "" else "/" + p[0] + Slashed(p[1..])
  }

  function Render(p: Path): string {
    if p == [] then "/" else Slashed(p)
  }

  predicate IsWithin(candidate: string, root: string) {
    candidate == root || StartsWith(candidate, root + "/")
  }

  lemma StartsInName(a: string, x: string)
    requires '/' !in a
    ensures a != "" ==> (a + x)[0] != '/'
  {
    if a != "" {
      assert a[0] in a;
    }
  }

  lemma {:induction false} SameName(a: string, x: string, b: string, y: string)
    requires '/' !in a && '/' !in b && x != "" && x[0] == '/' && (y == "" || y[0] == '/')
    requires a + x <= b + y
    ensures a == b && x <= y
  {
    StartsInName(a, x);
    StartsInName(b, y);
    assert (a + x)[0] == (b + y)[0];
    if a == "" {
      assert a + x == x && b + y == y;
    } else {
      assert (a + x)[1..] == a[1..] + x && (b + y)[1..] == b[1..] + y;
      SameName(a[1..], x, b[1..], y);
    }
  }

  /** Two names, each followed by a slash, agree as strings exactly if they agree as names. */
  lemma PrefixCons(a: string, x: string, b: string, y: string)
    requires '/' !in a && '/' !in b && x != "" && x[0] == '/' && (y == "" || y[0] == '/')
    ensures "/" + (a + x) <= "/" + (b + y) <==> a == b && x <= y
  {
    assert ("/" + (a + x))[1..] == a + x && ("/" + (b + y))[1..] == b + y;
    if a + x <= b + y {
      SameName(a, x, b, y);
    }
  }

  lemma SlashedCons(p: Path, end: string)
    requires p != []
    ensures Slashed(p) + end == "/" + (p[0] + (Slashed(p[1..]) + end))
  {
  }

  lemma ProperPrefixCons(a: Path, b: Path)
    requires a != [] && b != []
    ensures a < b <==> a[0] == b[0] && a[1..] < b[1..]
  {
    assert a == [a[0]] + a[1..] && b == [b[0]] + b[1..];
  }

  lemma {:induction false} SlashedPrefix(root: Path, c: Path)
    requires Proper(root) && Proper(c)
    ensures Slashed(root) + "/" <= Slashed(c) <==> root < c
    decreases |root|
  {
    if root == [] {
      assert Slashed(root) + "/" == "/";
    } else if c != [] {
      SlashedPrefix(root[1..], c[1..]);
      SlashedCons(root, "/");
      SlashedCons(c, "");
      assert Slashed(c) + "" == Slashed(c) && Slashed(c[1..]) + "" == Slashed(c[1..]);
      PrefixCons(root[0], Slashed(root[1..]) + "/", c[0], Slashed(c[1..]));
      ProperPrefixCons(root, c);
    }
  }

  lemma SameNames(a: string, x: string, b: string, y: string)
    requires '/' !in a && '/' !in b && (x == "" || x[0] == '/') && (y == "" || y[0] == '/')
    requires "/" + (a + x) == "/" + (b + y)
    ensures a == b && x == y
  {
    assert a + x == ("/" + (a + x))[1..] && b + y == ("/" + (b + y))[1..];
    assert a + (x + "/") == (a + x) + "/" && b + (y + "/") == (b + y) + "/";
    SameName(a, x + "/", b, y + "/");
    assert x == (x + "/")[..|x|] && y == (y + "/")[..|y|];
  }

  lemma {:induction false} SlashedInjective(a: Path, b: Path)
    requires Proper(a) && Proper(b) && Slashed(a) == Slashed(b)
    ensures a == b
    decreases |a|
  {
    if a != [] && b != [] {
      SlashedCons(a, "");
      SlashedCons(b, "");
      assert Slashed(a) + "" == Slashed(a) && Slashed(b) + "" == Slashed(b);
      assert Slashed(a[1..]) + "" == Slashed(a[1..]) && Slashed(b[1..]) + "" == Slashed(b[1..]);
      SameNames(a[0], Slashed(a[1..]), b[0], Slashed(b[1..]));
      SlashedInjective(a[1..], b[1..]);
      assert a == [a[0]] + a[1..] && b == [b[0]] + b[1..];
    }
  }

  predicate Covers(root: Path, c: Path) {
    root == c || (root != [] && root <= c)
  }

  /** The root itself, or that and more names behind it; the file system root has nothing below it here. */
  ghost predicate IsOrIsBelow(c: Path, root: Path) {
    c == root || (root != [] && exists more :: c == root + more)
  }

  lemma CoversIsBelow(root: Path, c: Path)
    ensures Covers(root, c) <==> IsOrIsBelow(c, root)
  {
    if root <= c {
      assert c == root + c[|root|..];
    }
  }

  /**
   * The string comparison is containment of components, except that the file system root contains
   * nothing but itself.
   */
  lemma WithinIsComponentPrefix(root: Path, c: Path)
    requires Proper(root) && Proper(c)
    ensures IsWithin(Render(c), Render(root)) <==> IsOrIsBelow(c, root)
  {
    CoversIsBelow(root, c);
    if root == [] {
      if c != [] {
        assert c[0][0] in c[0];
        assert Render(c)[1] == c[0][0];
        assert (Render(root) + "/")[1] == '/';
      }
    } else {
      SlashedPrefix(root, c);
      assert root[0] != "" && |Slashed(root)| > 1;
      assert root <= c && |root| == |c| ==> root == c;
      if c != [] && Render(c) == Render(root) {
        SlashedInjective(c, root);
      }
    }
  }

  // ---- The accept path -------------------------------------------------------------------------------------

  /** `path.resolve(base, text)` for a text already split at its separators. */
  function Lexical(base: Path, parts: seq<string>): Path
    decreases |parts|
  {
    if parts == [] then base
    else if parts[0] == "" || parts[0] == "." then Lexical(base, parts[1..])
    else if parts[0] == ".." then Lexical(Parent(base), parts[1..])
    else Lexical(base + [parts[0]], parts[1..])
  }

  lemma {:induction false} LexicalIsProper(base: Path, parts: seq<string>)
    requires Proper(base) && forall i :: 0 <= i < |parts| ==> '/' !in parts[i]
    ensures Proper(Lexical(base, parts))
    decreases |parts|
  {
    if parts != [] {
      if parts[0] == "" || parts[0] == "." {
        LexicalIsProper(base, parts[1..]);
      } else if parts[0] == ".." {
        LexicalIsProper(Parent(base), parts[1..]);
      } else {
        LexicalIsProper(base + [parts[0]], parts[1..]);
      }
    }
  }

  /** Where resolution succeeds without following a link, it ends at the path taken as it is written. */
  lemma {:induction false} LexicalIsTheWalk(fs: FS, base: Path, parts: seq<string>, n: nat)
    requires Walk(fs, base, parts, n).Some? && Walk(fs, base, parts, n).value.links == n
    ensures Walk(fs, base, parts, n).value.path == Lexical(base, parts)
    decreases |parts|
  {
    if parts != [] {
      var q := base + [parts[0]];
      if parts[0] == "" || parts[0] == "." {
        LexicalIsTheWalk(fs, base, parts[1..], n);
      } else if parts[0] == ".." {
        LexicalIsTheWalk(fs, Parent(base), parts[1..], n);
      } else if fs[q].Link? {
        LinksAreSpent(fs, Base(fs, q), fs[q].target + parts[1..], n - 1);
      } else {
        LexicalIsTheWalk(fs, q, parts[1..], n);
      }
    }
  }

  datatype Accepted = Accepted(realCandidate: Path, absPath: Path)

  /** A root that cannot be made canonical is dropped, not fatal. */
  predicate RootCovers(fs: FS, limit: nat, root: Path, c: Path) {
    ToReal(fs, limit, root).Ok? && Covers(ToReal(fs, limit, root).value, c)
  }

  /** `isWithinRoots`. */
  method IsWithinRoots(candidate: Path, roots: seq<Path>) returns (within: bool)
    requires Proper(candidate) && forall i :: 0 <= i < |roots| ==> Proper(roots[i])
    ensures within <==> Admits(roots, candidate)
    ensures within <==> exists i :: 0 <= i < |roots| && IsOrIsBelow(candidate, roots[i])
  {
    forall i | 0 <= i < |roots|
      ensures Covers(roots[i], candidate) <==> IsOrIsBelow(candidate, roots[i])
    {
      CoversIsBelow(roots[i], candidate);
    }
    for i := 0 to |roots|
      invariant forall j :: 0 <= j < i ==> !Covers(roots[j], candidate)
    {
      WithinIsComponentPrefix(roots[i], candidate);
      CoversIsBelow(roots[i], candidate);
      if IsWithin(Render(candidate), Render(roots[i])) {
        return true;
      }
    }
    within := false;
  }

  /** The roots that can be made canonical, in order; the others are dropped. */
  function RealRoots(fs: FS, limit: nat, rootDirs: seq<Path>): seq<Path> {
    if rootDirs == [] then []
    else
      var root := ToReal(fs, limit, rootDirs[|rootDirs| - 1]);
      RealRoots(fs, limit, rootDirs[..|rootDirs| - 1]) + if root.Ok? then [root.value] else []
  }

  lemma RealRootsOneMore(fs: FS, limit: nat, rootDirs: seq<Path>, i: nat)
    requires i < |rootDirs|
    ensures RealRoots(fs, limit, rootDirs[..i + 1]) ==
      RealRoots(fs, limit, rootDirs[..i]) +
        if ToReal(fs, limit, rootDirs[i]).Ok? then [ToReal(fs, limit, rootDirs[i]).value] else []
  {
    assert rootDirs[..i + 1][..i] == rootDirs[..i];
  }

  method CanonicalRoots(fs: FS, limit: nat, rootDirs: seq<Path>) returns (realRoots: seq<Path>)
    ensures realRoots == RealRoots(fs, limit, rootDirs)
  {
    realRoots := [];
    for i := 0 to |rootDirs|
      invariant realRoots == RealRoots(fs, limit, rootDirs[..i])
    {
      var root := ToRealPath(fs, limit, rootDirs[i]);
      RealRootsOneMore(fs, limit, rootDirs, i);
      realRoots := realRoots + if root.Ok? then [root.value] else [];
    }
    assert rootDirs[..|rootDirs|] == rootDirs;
  }

  ghost predicate Admits(roots: seq<Path>, c: Path) {
    exists root :: root in roots && Covers(root, c)
  }

  ghost predicate AdmitsFrom(fs: FS, limit: nat, rootDirs: seq<Path>, c: Path) {
    exists root :: root in rootDirs && RootCovers(fs, limit, root, c)
  }

  lemma AdmitsOneMore(fs: FS, limit: nat, roots: seq<Path>, root: Path, c: Path)
    ensures Admits(roots + [root], c) <==> (Admits(roots, c) || Covers(root, c))
    ensures AdmitsFrom(fs, limit, roots + [root], c) <==> (AdmitsFrom(fs, limit, roots, c) || RootCovers(fs, limit, root, c))
  {
    assert root in roots + [root];
    if Admits(roots, c) {
      var r :| r in roots && Covers(r, c);
      assert r in roots + [root];
    }
    if AdmitsFrom(fs, limit, roots, c) {
      var r :| r in roots && RootCovers(fs, limit, r, c);
      assert r in roots + [root];
    }
  }

  /** Dropping a root only ever rejects more: the rest decide exactly as they would have. */
  lemma {:induction false} RealRootsDecide(fs: FS, limit: nat, rootDirs: seq<Path>, c: Path)
    ensures Admits(RealRoots(fs, limit, rootDirs), c) <==> AdmitsFrom(fs, limit, rootDirs, c)
  {
    if rootDirs != [] {
      var last, before := rootDirs[|rootDirs| - 1], rootDirs[..|rootDirs| - 1];
      RealRootsDecide(fs, limit, before, c);
      assert rootDirs == before + [last];
      AdmitsOneMore(fs, limit, before, last, c);
      if ToReal(fs, limit, last).Ok? {
        AdmitsOneMore(fs, limit, RealRoots(fs, limit, before), ToReal(fs, limit, last).value, c);
      } else {
        assert RealRoots(fs, limit, before) + [] == RealRoots(fs, limit, before);
      }
    }
  }

  lemma {:induction false} RealRootsAreProper(fs: FS, limit: nat, rootDirs: seq<Path>)
    requires WellFormed(fs) && forall i :: 0 <= i < |rootDirs| ==> Proper(rootDirs[i])
    ensures forall i :: 0 <= i < |RealRoots(fs, limit, rootDirs)| ==> Proper(RealRoots(fs, limit, rootDirs)[i])
  {
    if rootDirs != [] {
      var last, before := rootDirs[|rootDirs| - 1], rootDirs[..|rootDirs| - 1];
      RealRootsAreProper(fs, limit, before);
      if ToReal(fs, limit, last).Ok? {
        ResultIsLinkFree(fs, limit, last);
      }
    }
  }

  /** Some folder that can be made canonical is the candidate, or has it below it. */
  ghost predicate IsBelowSome(fs: FS, limit: nat, rootDirs: seq<Path>, c: Path) {
    exists root :: root in rootDirs && ToReal(fs, limit, root).Ok? && IsOrIsBelow(c, ToReal(fs, limit, root).value)
  }

  lemma AdmitsFromIs(fs: FS, limit: nat, rootDirs: seq<Path>, c: Path)
    ensures AdmitsFrom(fs, limit, rootDirs, c) <==> IsBelowSome(fs, limit, rootDirs, c)
  {
    forall root | root in rootDirs && ToReal(fs, limit, root).Ok?
      ensures RootCovers(fs, limit, root, c) <==> IsOrIsBelow(c, ToReal(fs, limit, root).value)
    {
      CoversIsBelow(ToReal(fs, limit, root).value, c);
    }
  }

  /** `resolveCandidateWithinRoots`, from the selected folders on. */
  method ResolveCandidateWithinRoots(fs: FS, limit: nat, absolute: bool, parts: seq<string>, rootDirs: seq<Path>)
    returns (r: Result<Accepted>)
    requires WellFormed(fs)
    requires forall i :: 0 <= i < |parts| ==> '/' !in parts[i]
    requires forall i :: 0 <= i < |rootDirs| ==> Proper(rootDirs[i])
    ensures rootDirs == [] ==> r == Err
    ensures rootDirs != [] ==>
      var p := Lexical(if absolute then [] else rootDirs[0], parts);
      && (r.Ok? <==> ToReal(fs, limit, p).Ok? && IsBelowSome(fs, limit, rootDirs, ToReal(fs, limit, p).value))
      && (r.Ok? ==> r.value == Accepted(ToReal(fs, limit, p).value, p))
  {
    if rootDirs == [] {
      return Err;
    }
    var p := Lexical(if absolute then [] else rootDirs[0], parts);
    LexicalIsProper(if absolute then [] else rootDirs[0], parts);
    var vetted := ToRealPath(fs, limit, p);
    if vetted.Err? {
      return Err;
    }
    Canonical(fs, limit, p);
    var realRoots := CanonicalRoots(fs, limit, rootDirs);
    RealRootsDecide(fs, limit, rootDirs, vetted.value);
    AdmitsFromIs(fs, limit, rootDirs, vetted.value);
    RealRootsAreProper(fs, limit, rootDirs);
    var within := IsWithinRoots(vetted.value, realRoots);
    r := if within then Ok(Accepted(vetted.value, p)) else Err;
  }

  /**
   * An accepted candidate stays inside a folder that admitted it: whatever files and directories
   * are created afterwards, following it ends below that folder's canonical path.
   */
  lemma AcceptedStaysInside(fs: FS, later: FS, limit: nat, kernelLimit: nat, p: Path, rootDirs: seq<Path>)
    requires WellFormed(fs) && Grown(fs, later) && Proper(p)
    requires ToReal(fs, limit, p).Ok? && IsBelowSome(fs, limit, rootDirs, ToReal(fs, limit, p).value)
    requires RealPath(later, kernelLimit, p).Some?
    ensures var landed := RealPath(later, kernelLimit, p).value.path;
      && LinkFree(fs, landed)
      && exists root :: root in rootDirs && ToReal(fs, limit, root).Ok? && ToReal(fs, limit, root).value <= landed
  {
    LandsWhereChecked(fs, later, limit, kernelLimit, p);
    Canonical(fs, limit, p);
    AdmitsFromIs(fs, limit, rootDirs, ToReal(fs, limit, p).value);
    var root :| root in rootDirs && RootCovers(fs, limit, root, ToReal(fs, limit, p).value);
    assert ToReal(fs, limit, root).value <= ToReal(fs, limit, p).value;
  }
}
