/**
 Batches of managed copies and moves (service/file.go): the validator that makes the order
 of a batch irrelevant, and the execution of a prepared batch.
 */
module FileBatch {
  import opened Basics

  // A canonical absolute path, by its components.
  type Path = seq<string>

  const MAX_ITEMS := 16
  const MAX_INT64 := 0x7fff_ffff_ffff_ffff

  // ---------- overlap on strings and on components ----------

  ghost predicate Canonical(p: Path) {
    forall i | 0 <= i < |p| :: p[i] != "" && '/' !in p[i]
  }

  function Spelled(p: Path): string {
    if p == [] then "/" else Joined(p)
  }

  function Joined(p: Path): string {
    if p == [] then "" else Joined(p[..|p| - 1]) + "/" + p[|p| - 1]
  }

  // managedOperationPathContains
  predicate ContainsText(parent: string, child: string) {
    parent == child || parent + "/" <= child
  }

  lemma {:induction false} JoinedSplit(p: Path, q: Path)
    ensures Joined(p + q) == Joined(p) + Joined(q)
  {
    if q == [] {
      assert p + q == p && Joined(q) == "";
    } else {
      var n := |q| - 1;
      assert (p + q)[..|p + q| - 1] == p + q[..n];
      JoinedSplit(p, q[..n]);
    }
  }

  // With a slash at the end, so that components cannot run into each other.
  function Slashed(p: Path): string {
    Joined(p) + "/"
  }

  lemma SlashedFirst(p: Path)
    requires p != []
    ensures Slashed(p) == "/" + p[0] + Slashed(p[1..])
  {
    assert p == [p[0]] + p[1..];
    JoinedSplit([p[0]], p[1..]);
    assert Joined([p[0]]) == Joined([]) + "/" + p[0] && [p[0]][..0] == [];
  }

  lemma SlashedStarts(p: Path)
    ensures Slashed(p) != "" && Slashed(p)[0] == '/'
  {
    if p != [] { SlashedFirst(p); }
  }

  lemma SameHead(a: string, x: string, b: string, y: string)
    requires '/' !in a && '/' !in b && x != "" && y != "" && x[0] == '/' && y[0] == '/'
    requires "/" + a + x <= "/" + b + y
    ensures a == b && x <= y
  {
    var s, t := "/" + a + x, "/" + b + y;
    assert s[1 + |a|] == '/' && t[1 + |b|] == '/';
    assert forall i | 0 <= i < |a| :: s[1 + i] == a[i];
    assert forall i | 0 <= i < |b| :: t[1 + i] == b[i];
    assert |a| == |b|;
    assert a == s[1..1 + |a|] && b == t[1..1 + |b|];
    assert x == s[1 + |a|..] && y == t[1 + |b|..];
  }

  // A slashed spelling determines the components one by one.
  lemma {:induction false} PrefixOfComponents(p: Path, q: Path)
    requires Canonical(p) && Canonical(q) && Slashed(p) <= Slashed(q)
    ensures p <= q
  {
    hide Slashed;
    if p != [] {
      SlashedFirst(p);
      SlashedStarts(p[1..]);
      if q == [] {
        SlashedRoot();
        assert false;
      } else {
        SlashedFirst(q);
        SlashedStarts(q[1..]);
        SameHead(p[0], Slashed(p[1..]), q[0], Slashed(q[1..]));
        PrefixOfComponents(p[1..], q[1..]);
        assert p == [p[0]] + p[1..] && q == [q[0]] + q[1..];
      }
    }
  }

  lemma SlashedRoot()
    ensures Slashed([]) == "/"
  {
  }

  /** The string test decides component containment for every parent but the root, which it
      takes to contain only itself. */
  lemma ContainsIffPrefix(p: Path, q: Path)
    requires Canonical(p) && Canonical(q)
    ensures p != [] ==> (ContainsText(Spelled(p), Spelled(q)) <==> p <= q)
    ensures p == [] ==> (ContainsText(Spelled(p), Spelled(q)) <==> q == [])
  {
    if p == [] {
      if q != [] { RootContainsOnlyItself(q); }
    } else {
      if ContainsText(Spelled(p), Spelled(q)) { TextImpliesPrefix(p, q); }
      if p <= q { PrefixImpliesText(p, q); }
    }
  }

  lemma RootContainsOnlyItself(q: Path)
    requires Canonical(q) && q != []
    ensures !ContainsText("/", Joined(q))
  {
    SlashedFirst(q);
    SlashedStarts(q[1..]);
    var t := Slashed(q);
    assert t[1] == q[0][0] && q[0][0] in q[0];
    assert |Joined(q)| == |t| - 1 && |t| >= 3;
    assert Joined(q)[1] == t[1];
  }

  lemma TextImpliesPrefix(p: Path, q: Path)
    requires Canonical(p) && Canonical(q) && p != [] && ContainsText(Joined(p), Spelled(q))
    ensures p <= q
  {
    if q == [] {
      SlashedFirst(p);
      assert false;
    } else {
      assert Slashed(p) <= Slashed(q);
      PrefixOfComponents(p, q);
    }
  }

  lemma PrefixImpliesText(p: Path, q: Path)
    requires p != [] && p <= q
    ensures ContainsText(Joined(p), Joined(q))
  {
    var r := q[|p|..];
    assert q == p + r;
    JoinedSplit(p, r);
    if r != [] {
      SlashedFirst(r);
      assert Slashed(r)[0] == '/' && |Joined(r)| > 0;
      assert Joined(r)[0] == '/';
    }
  }

  // ---------- validating a batch ----------

  datatype Style = Skip | Replace | Rename
  datatype Kind = Directory | Regular | Unsupported

  // One way to look at the managed roots: how a spelling resolves, which paths are
  // configured roots, what is there, how large it is and whether it is a mount point.
  datatype Roots = Roots(
    resolve: string -> Option<Path>,
    isRoot: Path -> bool,
    kind: Path -> Option<Kind>,
    size: Path -> Option<nat>,
    mounted: Path -> Option<bool>,
    validName: string -> bool)

  ghost predicate SoundRoots(roots: Roots) {
    forall s :: roots.resolve(s).Some? ==> Canonical(roots.resolve(s).value)
  }

  datatype Request = Request(move: bool, style: Style, to: string, from: seq<string>)

  // An accepted batch: sources, the directory they go to, and their sizes.
  datatype Prepared = Prepared(move: bool, style: Style, dest: Path, sources: seq<Path>, sizes: seq<nat>, total: nat)

  function Last(p: Path): string
    requires p != []
  {
    p[|p| - 1]
  }

  function Target(dest: Path, source: Path): Path
    requires source != []
  {
    dest + [Last(source)]
  }

  predicate Overlap(p: Path, q: Path) {
    p <= q || q <= p
  }

  // managedOperationPathsOverlap
  predicate OverlapText(p: Path, q: Path) {
    ContainsText(Spelled(p), Spelled(q)) || ContainsText(Spelled(q), Spelled(p))
  }

  lemma OverlapTextIff(p: Path, q: Path)
    requires Canonical(p) && Canonical(q) && p != [] && q != []
    ensures OverlapText(p, q) <==> Overlap(p, q)
  {
    hide ContainsText, Spelled;
    ContainsIffPrefix(p, q);
    ContainsIffPrefix(q, p);
  }

  // The checks made of one item by itself.
  predicate ItemOk(roots: Roots, move: bool, dest: Path, source: Path) {
    && source != [] && !roots.isRoot(source)
    && roots.kind(source).Some? && !roots.kind(source).value.Unsupported?
    && roots.validName(Last(source)) && !roots.isRoot(Target(dest, source))
    && source[..|source| - 1] != dest && !Overlap(source, Target(dest, source))
    && !(roots.kind(source).value.Directory? && source <= dest)
    && (move ==> roots.mounted(source) == Some(false))
    && roots.size(source).Some?
  }

  ghost predicate SourcesApart(sources: seq<Path>) {
    forall i, k | 0 <= i < k < |sources| :: !Overlap(sources[i], sources[k])
  }

  ghost predicate TargetsApart(dest: Path, sources: seq<Path>)
    requires forall i | 0 <= i < |sources| :: sources[i] != []
  {
    forall i, k | 0 <= i < k < |sources| :: Target(dest, sources[i]) != Target(dest, sources[k])
  }

  ghost predicate Crossed(dest: Path, sources: seq<Path>)
    requires forall i | 0 <= i < |sources| :: sources[i] != []
  {
    exists i, k | 0 <= i < |sources| && 0 <= k < |sources| && i != k :: Overlap(Target(dest, sources[i]), sources[k])
  }

  function Sum(sizes: seq<nat>): nat {
    if sizes == [] then 0 else Sum(sizes[..|sizes| - 1]) + sizes[|sizes| - 1]
  }

  // What acceptance means.
  ghost predicate Acceptable(roots: Roots, r: Request, b: Prepared) {
    && 1 <= |r.from| == |b.sources| == |b.sizes| <= 16 && b.move == r.move && b.style == r.style
    && roots.resolve(r.to) == Some(b.dest) && roots.kind(b.dest) == Some(Directory)
    && (forall i | 0 <= i < |r.from| :: roots.resolve(r.from[i]) == Some(b.sources[i]))
    && (forall i | 0 <= i < |r.from| ::
        ItemOk(roots, r.move, b.dest, b.sources[i]) && roots.size(b.sources[i]) == Some(b.sizes[i]))
    && SourcesApart(b.sources) && (r.style != Rename ==> TargetsApart(b.dest, b.sources)) && !Crossed(b.dest, b.sources)
    && b.total == Sum(b.sizes) <= 0x7fff_ffff_ffff_ffff
  }

  // The first items have passed.
  ghost predicate PassedSoFar(roots: Roots, r: Request, dest: Path, sources: seq<Path>, sizes: seq<nat>) {
    && |sources| == |sizes| <= |r.from|
    && (forall i | 0 <= i < |sources| ::
          roots.resolve(r.from[i]) == Some(sources[i]) && ItemOk(roots, r.move, dest, sources[i]) &&
            roots.size(sources[i]) == Some(sizes[i]))
    && SourcesApart(sources) && (r.style != Rename ==> TargetsApart(dest, sources)) && Sum(sizes) <= MAX_INT64
  }

  ghost predicate NextPasses(roots: Roots, r: Request, dest: Path, sources: seq<Path>, sizes: seq<nat>, s: Path)
    requires forall i | 0 <= i < |sources| :: sources[i] != []
  {
    && ItemOk(roots, r.move, dest, s)
    && (forall k | 0 <= k < |sources| :: !Overlap(sources[k], s))
    && (r.style != Rename ==> forall k | 0 <= k < |sources| :: Target(dest, sources[k]) != Target(dest, s))
    && Sum(sizes) + roots.size(s).value <= MAX_INT64
  }

  lemma PassedOneMore(roots: Roots, r: Request, dest: Path, sources: seq<Path>, sizes: seq<nat>, s: Path)
    requires PassedSoFar(roots, r, dest, sources, sizes) && |sources| < |r.from|
    requires roots.resolve(r.from[|sources|]) == Some(s)
    requires NextPasses(roots, r, dest, sources, sizes, s)
    ensures PassedSoFar(roots, r, dest, sources + [s], sizes + [roots.size(s).value])
    ensures Sum(sizes + [roots.size(s).value]) == Sum(sizes) + roots.size(s).value
  {
    hide ItemOk, Overlap;
    ItemHasName(roots, r.move, dest, s);
    var more := sizes + [roots.size(s).value];
    assert more[..|sizes|] == sizes;
    assert forall i | 0 <= i < |sources| :: (sources + [s])[i] == sources[i] && more[i] == sizes[i];
  }

  lemma ItemHasName(roots: Roots, move: bool, dest: Path, s: Path)
    requires ItemOk(roots, move, dest, s)
    ensures s != [] && roots.size(s).Some?
  {
  }

  lemma {:induction false} SumPrefix(sizes: seq<nat>, n: nat)
    requires n <= |sizes|
    ensures Sum(sizes[..n]) <= Sum(sizes)
  {
    if n < |sizes| {
      SumPrefix(sizes[..|sizes| - 1], n);
      assert sizes[..|sizes| - 1][..n] == sizes[..n];
    } else {
      assert sizes[..n] == sizes;
    }
  }

  // An acceptable batch agrees with what was resolved, so it passes the next item too.
  lemma AcceptablePasses(roots: Roots, r: Request, b: Prepared, dest: Path, sources: seq<Path>, sizes: seq<nat>)
    requires Acceptable(roots, r, b) && roots.resolve(r.to) == Some(dest)
    requires PassedSoFar(roots, r, dest, sources, sizes) && |sources| < |r.from|
    ensures NextPasses(roots, r, dest, sources, sizes, b.sources[|sources|])
  {
    hide ItemOk, Overlap;
    var i := |sources|;
    forall k | 0 <= k < i ensures b.sources[k] == sources[k] && b.sizes[k] == sizes[k] {}
    assert b.sizes[..i] == sizes;
    assert ItemOk(roots, r.move, b.dest, b.sources[i]);
    SumPrefix(b.sizes, i + 1);
    assert b.sizes[..i + 1][..i] == sizes && b.sizes[..i + 1][i] == b.sizes[i];
  }

  // The checks of the loop body.
  method CheckNext(roots: Roots, r: Request, dest: Path, sources: seq<Path>, seen: set<Path>, total: nat,
                   ghost sizes: seq<nat>, s: Path) returns (ok: bool)
    requires Canonical(dest) && Canonical(s) && PassedSoFar(roots, r, dest, sources, sizes) && total == Sum(sizes)
    requires forall k | 0 <= k < |sources| :: Canonical(sources[k]) && sources[k] != []
    requires forall t :: t in seen <==> exists k | 0 <= k < |sources| :: Target(dest, sources[k]) == t
    ensures ok <==> NextPasses(roots, r, dest, sources, sizes, s)
  {
    hide PassedSoFar, Canonical, Overlap, OverlapText;
    ok := false;
    var fine := CheckItem(roots, r.move, dest, s);
    if !fine { return; }
    ItemHasName(roots, r.move, dest, s);
    for k := 0 to |sources|
      invariant forall m | 0 <= m < k :: !Overlap(sources[m], s)
    {
      OverlapTextIff(sources[k], s);
      if OverlapText(sources[k], s) { return; }
    }
    if Target(dest, s) in seen && r.style != Rename { return; }
    ok := total <= MAX_INT64 - roots.size(s).value;
  }

  method CheckItem(roots: Roots, move: bool, dest: Path, s: Path) returns (ok: bool)
    requires Canonical(dest) && Canonical(s)
    ensures ok <==> ItemOk(roots, move, dest, s)
  {
    hide ContainsText, Spelled;
    ok := false;
    if s == [] || roots.isRoot(s) || roots.kind(s).None? || roots.kind(s).value.Unsupported? { return; }
    if !roots.validName(Last(s)) || roots.isRoot(Target(dest, s)) { return; }
    TargetIsCanonical(dest, s);
    OverlapTextIff(s, Target(dest, s));
    ContainsIffPrefix(s, dest);
    if s[..|s| - 1] == dest || OverlapText(s, Target(dest, s)) { return; }
    if roots.kind(s).value.Directory? && ContainsText(Spelled(s), Spelled(dest)) { return; }
    if move && roots.mounted(s) != Some(false) { return; }
    ok := roots.size(s).Some?;
  }

  lemma TargetIsCanonical(dest: Path, s: Path)
    requires Canonical(dest) && Canonical(s) && s != []
    ensures Canonical(Target(dest, s))
  {
  }

  // The final comparison of every target with every other source.
  method CheckCrossing(dest: Path, sources: seq<Path>) returns (crossed: bool)
    requires Canonical(dest) && forall k | 0 <= k < |sources| :: Canonical(sources[k]) && sources[k] != []
    ensures crossed <==> Crossed(dest, sources)
  {
    hide Canonical, Overlap, OverlapText;
    for i := 0 to |sources|
      invariant forall m, k | 0 <= m < i && 0 <= k < |sources| && m != k ::
                  !Overlap(Target(dest, sources[m]), sources[k])
    {
      TargetIsCanonical(dest, sources[i]);
      for k := 0 to |sources|
        invariant forall m | 0 <= m < k && m != i :: !Overlap(Target(dest, sources[i]), sources[m])
      {
        OverlapTextIff(Target(dest, sources[i]), sources[k]);
        if i != k && OverlapText(Target(dest, sources[i]), sources[k]) { return true; }
      }
    }
    return false;
  }

  /** PrepareFileOperation: a batch is accepted exactly when it is acceptable, and then with
      the sum of its sizes, which fits 64 bits. */
  method Prepare(roots: Roots, r: Request) returns (res: Option<Prepared>)
    requires SoundRoots(roots)
    ensures res.Some? ==> Acceptable(roots, r, res.value)
    ensures res.None? ==> forall b :: !Acceptable(roots, r, b)
  {
    hide PassedSoFar, NextPasses, Canonical, ItemOk, Overlap, Crossed, SourcesApart, TargetsApart;
    res := None;
    if |r.from| == 0 || |r.from| > MAX_ITEMS { return; }
    if roots.resolve(r.to).None? { return; }
    var dest := roots.resolve(r.to).value;
    if roots.kind(dest) != Some(Directory) { return; }
    var sources: seq<Path>, sizes: seq<nat>, total: nat, seen: set<Path> := [], [], 0, {};
    NothingPassed(roots, r, dest);
    for i := 0 to |r.from|
      invariant |sources| == i && PassedSoFar(roots, r, dest, sources, sizes) && total == Sum(sizes)
      invariant forall k | 0 <= k < |sources| :: Canonical(sources[k]) && sources[k] != []
      invariant forall t :: t in seen <==> exists k | 0 <= k < |sources| :: Target(dest, sources[k]) == t
    {
      var found := roots.resolve(r.from[i]);
      if found.None? { return; }
      var s := found.value;
      var ok := CheckNext(roots, r, dest, sources, seen, total, sizes, s);
      if !ok {
        forall b ensures !Acceptable(roots, r, b) { NotAcceptable(roots, r, b, dest, sources, sizes, s); }
        return;
      }
      PassedOneMore(roots, r, dest, sources, sizes, s);
      PassesItem(roots, r, dest, sources, sizes, s);
      SeenOneMore(dest, sources, seen, s);
      seen := seen + {Target(dest, s)};
      total := total + roots.size(s).value;
      sources, sizes := sources + [s], sizes + [roots.size(s).value];
    }
    var crossed := CheckCrossing(dest, sources);
    if crossed {
      forall b ensures !Acceptable(roots, r, b) { NotUncrossed(roots, r, b, dest, sources, sizes); }
      return;
    }
    AllPassed(roots, r, dest, sources, sizes);
    res := Some(Prepared(r.move, r.style, dest, sources, sizes, total));
  }

  lemma NothingPassed(roots: Roots, r: Request, dest: Path)
    ensures PassedSoFar(roots, r, dest, [], [])
  {
  }

  lemma NotAcceptable(roots: Roots, r: Request, b: Prepared, dest: Path, sources: seq<Path>, sizes: seq<nat>, s: Path)
    requires roots.resolve(r.to) == Some(dest) && PassedSoFar(roots, r, dest, sources, sizes) && |sources| < |r.from|
    requires forall i | 0 <= i < |sources| :: sources[i] != []
    requires roots.resolve(r.from[|sources|]) == Some(s) && !NextPasses(roots, r, dest, sources, sizes, s)
    ensures !Acceptable(roots, r, b)
  {
    hide PassedSoFar, NextPasses, ItemOk, Overlap, Crossed, SourcesApart, TargetsApart;
    if Acceptable(roots, r, b) { AcceptablePasses(roots, r, b, dest, sources, sizes); }
  }

  lemma PassesItem(roots: Roots, r: Request, dest: Path, sources: seq<Path>, sizes: seq<nat>, s: Path)
    requires (forall i | 0 <= i < |sources| :: sources[i] != []) && NextPasses(roots, r, dest, sources, sizes, s)
    ensures s != [] && roots.size(s).Some?
  {
  }

  lemma SeenOneMore(dest: Path, sources: seq<Path>, seen: set<Path>, s: Path)
    requires s != [] && forall i | 0 <= i < |sources| :: sources[i] != []
    requires forall t :: t in seen <==> exists k | 0 <= k < |sources| :: Target(dest, sources[k]) == t
    ensures var more := sources + [s];
            forall t :: t in seen + {Target(dest, s)} <==> exists k | 0 <= k < |more| :: Target(dest, more[k]) == t
  {
    var more := sources + [s];
    forall t ensures t in seen + {Target(dest, s)} <==> exists k | 0 <= k < |more| :: Target(dest, more[k]) == t {
      if t in seen { var k :| 0 <= k < |sources| && Target(dest, sources[k]) == t; assert more[k] == sources[k]; }
      assert more[|sources|] == s;
    }
  }

  lemma NotUncrossed(roots: Roots, r: Request, b: Prepared, dest: Path, sources: seq<Path>, sizes: seq<nat>)
    requires roots.resolve(r.to) == Some(dest) && PassedSoFar(roots, r, dest, sources, sizes) && |sources| == |r.from|
    requires (forall i | 0 <= i < |sources| :: sources[i] != []) && Crossed(dest, sources)
    ensures !Acceptable(roots, r, b)
  {
    hide ItemOk, Overlap, SourcesApart, TargetsApart, Crossed;
    assert Acceptable(roots, r, b) ==> b.sources == sources;
  }

  lemma AllPassed(roots: Roots, r: Request, dest: Path, sources: seq<Path>, sizes: seq<nat>)
    requires 1 <= |r.from| <= MAX_ITEMS && roots.resolve(r.to) == Some(dest) && roots.kind(dest) == Some(Directory)
    requires PassedSoFar(roots, r, dest, sources, sizes) && |sources| == |r.from|
    requires (forall i | 0 <= i < |sources| :: sources[i] != []) && !Crossed(dest, sources)
    ensures Acceptable(roots, r, Prepared(r.move, r.style, dest, sources, sizes, Sum(sizes)))
  {
    hide ItemOk, Overlap, SourcesApart, TargetsApart, Crossed;
  }

  // ---------- what a batch does ----------

  datatype Node = DirNode | FileNode(data: seq<bv8>)

  // The managed file tree: what is at each path.
  type Tree = Path -> Option<Node>

  // An error before anything is published, or after.
  datatype Fault = Sound | Early | Late

  // One item with everything its execution depends on besides the tree; a move of a file that
  // has to copy keeps its source, and one of a directory is refused.
  datatype Item = Item(source: Path, dest: Path, move: bool, style: Style, copies: bool, fault: Fault)

  datatype Result = Done | Skipped | Partial | Failed

  ghost predicate EmptyAt(t: Tree, p: Path) {
    forall n :: t(p + [n]).None?
  }

  ghost predicate Replaceable(t: Tree, it: Item)
    requires it.source != []
  {
    var s, d := t(it.source), t(Target(it.dest, it.source));
    && s.Some? && d.Some? && s.value.DirNode? == d.value.DirNode?
    && (d.value.DirNode? ==> EmptyAt(t, Target(it.dest, it.source)))
  }

  ghost function Published(t: Tree, it: Item): Tree
    requires it.source != []
  {
    var target, gone := Target(it.dest, it.source), it.move && !it.copies && it.style != Replace;
    p => if target <= p then t(it.source + p[|target|..]) else if gone && it.source <= p then None else t(p)
  }

  // CopyInto and MoveInto
  ghost function Execute(t: Tree, it: Item): (Tree, Result)
    requires it.source != []
  {
    var target := t(Target(it.dest, it.source));
    if it.fault == Early || t(it.source).None? || t(it.dest) != Some(DirNode) then (t, Failed)
    else if it.move && t(it.source) == Some(DirNode) && (it.copies || it.style == Replace) then (t, Failed)
    else if target.Some? && it.style == Skip then (t, Skipped)
    else if target.Some? && !Replaceable(t, it) then (t, Failed)
    else (Published(t, it), if it.fault == Late || (it.move && (it.copies || it.style == Replace)) then Partial
      else Done)
  }

  // The paths an item may change.
  ghost predicate Touches(it: Item, p: Path)
    requires it.source != []
  {
    it.source <= p || Target(it.dest, it.source) <= p
  }

  // ... and those it may look at.
  ghost predicate Sees(it: Item, p: Path)
    requires it.source != []
  {
    p == it.dest || Touches(it, p)
  }

  lemma ExecuteIsLocal(t: Tree, u: Tree, it: Item)
    requires it.source != [] && forall p | Sees(it, p) :: t(p) == u(p)
    ensures Execute(t, it).1 == Execute(u, it).1
    ensures forall p | Touches(it, p) :: Execute(t, it).0(p) == Execute(u, it).0(p)
    ensures forall p | !Touches(it, p) :: Execute(t, it).0(p) == t(p)
  {
    var target := Target(it.dest, it.source);
    assert Sees(it, it.source) && Sees(it, target) && Sees(it, it.dest);
    forall n ensures t(target + [n]) == u(target + [n]) { assert Sees(it, target + [n]); }
    forall p | target <= p ensures t(it.source + p[|target|..]) == u(it.source + p[|target|..]) {
      assert Sees(it, it.source + p[|target|..]);
    }
    forall p | Touches(it, p) ensures Execute(t, it).0(p) == Execute(u, it).0(p) { assert Sees(it, p); }
  }

  /** What one item does.  It publishes exactly when nothing stands in its way; then the
      target shows the source's tree, and the source is gone exactly if it was moved within
      one filesystem; otherwise nothing changes. */
  lemma ExecuteSays(t: Tree, it: Item)
    requires it.source != []
    ensures var u, r := Execute(t, it).0, Execute(t, it).1;
            var target := it.dest + [it.source[|it.source| - 1]];
            && (r == Failed || r == Skipped ==> forall p :: u(p) == t(p))
            && (r == Done || r == Partial ==>
                  && (forall q :: u(target + q) == t(it.source + q))
                  && (forall p | !(target <= p) ::
                        u(p) == if it.source <= p && it.move && !it.copies && it.style != Replace then None else t(p)))
    ensures var target := it.dest + [it.source[|it.source| - 1]];
            Execute(t, it).1 == Done || Execute(t, it).1 == Partial <==>
              && it.fault != Early && t(it.source).Some? && t(it.dest) == Some(DirNode)
              && !(it.move && t(it.source) == Some(DirNode) && (it.copies || it.style == Replace))
              && (t(target).Some? ==> it.style != Skip && Replaceable(t, it))
  {
    hide Replaceable;
    var target := Target(it.dest, it.source);
    forall q ensures (target + q)[|target|..] == q {}
  }

  ghost predicate Independent(a: Item, b: Item)
    requires a.source != [] && b.source != []
  {
    && a.dest == b.dest && !Touches(a, b.dest) && !Touches(b, a.dest)
    && (forall p | Touches(a, p) :: !Touches(b, p))
  }

  ghost predicate Batch(items: seq<Item>) {
    && (forall i | 0 <= i < |items| :: items[i].source != [])
    && (forall i, k | 0 <= i < |items| && 0 <= k < |items| && i != k :: Independent(items[i], items[k]))
  }

  ghost function Run(t: Tree, items: seq<Item>): Tree
    requires forall i | 0 <= i < |items| :: items[i].source != []
  {
    if items == [] then t else Execute(Run(t, items[..|items| - 1]), items[|items| - 1]).0
  }

  // The result of the i-th item of a run.
  ghost function ResultOf(t: Tree, items: seq<Item>, i: nat): Result
    requires (forall k | 0 <= k < |items| :: items[k].source != []) && i < |items|
  {
    Execute(Run(t, items[..i]), items[i]).1
  }

  lemma {:induction false} Untouched(t: Tree, items: seq<Item>, p: Path)
    requires (forall i | 0 <= i < |items| :: items[i].source != [])
    requires forall i | 0 <= i < |items| :: !Touches(items[i], p)
    ensures Run(t, items)(p) == t(p)
  {
    hide Touches, Execute;
    if items != [] {
      var n := |items| - 1;
      Untouched(t, items[..n], p);
      ExecuteIsLocal(Run(t, items[..n]), Run(t, items[..n]), items[n]);
    }
  }

  lemma SubBatch(items: seq<Item>, n: nat)
    requires Batch(items) && n <= |items|
    ensures Batch(items[..n])
  {
    hide Independent;
  }

  // An item finds everything it looks at as if it ran alone.
  lemma SeenAlone(t: Tree, items: seq<Item>, n: nat, p: Path)
    requires Batch(items) && n < |items| && Sees(items[n], p)
    ensures Run(t, items[..n])(p) == t(p)
  {
    hide Touches, Run, Execute;
    forall i | 0 <= i < n ensures !Touches(items[..n][i], p) {
      assert Independent(items[i], items[n]) && Independent(items[n], items[i]);
    }
    Untouched(t, items[..n], p);
  }

  lemma RunsAlone(t: Tree, items: seq<Item>, n: nat)
    requires Batch(items) && n < |items|
    ensures ResultOf(t, items, n) == Execute(t, items[n]).1
    ensures forall p | Touches(items[n], p) :: Execute(Run(t, items[..n]), items[n]).0(p) == Execute(t, items[n]).0(p)
  {
    hide Touches, Execute, Run;
    forall p | Sees(items[n], p) ensures Run(t, items[..n])(p) == t(p) { SeenAlone(t, items, n, p); }
    ExecuteIsLocal(Run(t, items[..n]), t, items[n]);
  }

  // The end of a run shows, at each path an item touches, what that item alone would do.
  lemma {:induction false} TouchedBy(t: Tree, items: seq<Item>, i: nat, p: Path)
    requires Batch(items) && i < |items| && Touches(items[i], p)
    ensures Run(t, items)(p) == Execute(t, items[i]).0(p)
  {
    hide Touches, Execute;
    var n := |items| - 1;
    if i == n {
      RunsAlone(t, items, n);
    } else {
      SubBatch(items, n);
      TouchedBy(t, items[..n], i, p);
      assert Independent(items[i], items[n]);
      ExecuteIsLocal(Run(t, items[..n]), Run(t, items[..n]), items[n]);
    }
  }

  ghost predicate Permutation(perm: seq<nat>, n: nat) {
    && |perm| == n && (forall i | 0 <= i < n :: perm[i] < n)
    && (forall i, k | 0 <= i < k < n :: perm[i] != perm[k]) && (forall k: nat | k < n :: k in perm)
  }

  ghost function Permuted(items: seq<Item>, perm: seq<nat>): seq<Item>
    requires Permutation(perm, |items|)
  {
    seq(|items|, i requires 0 <= i < |items| => items[perm[i]])
  }

  /** The items of an independent batch give the same final tree and the same results in
      whatever order they run. */
  lemma OrderIsIrrelevant(t: Tree, items: seq<Item>, perm: seq<nat>)
    requires Batch(items) && Permutation(perm, |items|)
    ensures Batch(Permuted(items, perm))
    ensures forall p :: Run(t, Permuted(items, perm))(p) == Run(t, items)(p)
    ensures forall i | 0 <= i < |items| :: ResultOf(t, Permuted(items, perm), i) == ResultOf(t, items, perm[i])
  {
    hide Touches, Execute, Run, ResultOf;
    var b := Permuted(items, perm);
    PermutedBatch(items, perm);
    forall p ensures Run(t, b)(p) == Run(t, items)(p) {
      if i: nat :| i < |items| && Touches(items[i], p) {
        assert i in perm;
        var k :| 0 <= k < |perm| && perm[k] == i;
        TouchedBy(t, items, i, p);
        TouchedBy(t, b, k, p);
      } else {
        Untouched(t, items, p);
        Untouched(t, b, p);
      }
    }
    forall i | 0 <= i < |items| ensures ResultOf(t, b, i) == ResultOf(t, items, perm[i]) {
      RunsAlone(t, b, i);
      RunsAlone(t, items, perm[i]);
    }
  }

  lemma PermutedBatch(items: seq<Item>, perm: seq<nat>)
    requires Batch(items) && Permutation(perm, |items|)
    ensures Batch(Permuted(items, perm))
  {
    hide Independent;
    var b := Permuted(items, perm);
    forall i, k | 0 <= i < |b| && 0 <= k < |b| && i != k ensures Independent(b[i], b[k]) {
      assert perm[i] != perm[k];
    }
  }

  // ---------- accepted batches ----------

  lemma PrefixesOverlap(a: Path, b: Path, p: Path)
    requires a <= p && b <= p
    ensures Overlap(a, b)
  {
    assert a == p[..|a|] && b == p[..|b|];
  }

  lemma ApartIsIndependent(dest: Path, a: Path, b: Path, x: Item, y: Item)
    requires a != [] && b != [] && x.source == a && y.source == b && x.dest == y.dest == dest
    requires !Overlap(a, b) && !Overlap(Target(dest, a), b) && !Overlap(Target(dest, b), a)
    requires Target(dest, a) != Target(dest, b)
    requires !Overlap(a, Target(dest, a)) && !Overlap(b, Target(dest, b))
    ensures Independent(x, y)
  {
    forall p | Touches(x, p) ensures !Touches(y, p) {
      if Touches(y, p) {
        PrefixesOverlap(if a <= p then a else Target(dest, a), if b <= p then b else Target(dest, b), p);
        assert false;
      }
    }
    NotInDest(dest, x);
    NotInDest(dest, y);
  }

  lemma NotInDest(dest: Path, x: Item)
    requires x.source != [] && x.dest == dest && !Overlap(x.source, Target(dest, x.source))
    ensures !Touches(x, dest)
  {
    assert dest <= Target(dest, x.source);
  }

  /** What the validator accepts, unless conflicts are to be renamed, is an independent
      batch: so request ordering cannot change its meaning. */
  lemma AcceptedBatchesCommute(roots: Roots, r: Request, b: Prepared, items: seq<Item>)
    requires Acceptable(roots, r, b) && r.style != Rename && |items| == |b.sources|
    requires forall i | 0 <= i < |items| :: items[i].source == b.sources[i] && items[i].dest == b.dest
    ensures Batch(items)
  {
    hide Independent, Overlap;
    forall i | 0 <= i < |items| ensures items[i].source != [] { assert ItemOk(roots, r.move, b.dest, b.sources[i]); }
    forall i, k | 0 <= i < |items| && 0 <= k < |items| && i != k ensures Independent(items[i], items[k]) {
      var x, y := b.sources[i], b.sources[k];
      assert ItemOk(roots, r.move, b.dest, x) && ItemOk(roots, r.move, b.dest, y);
      assert !Overlap(Target(b.dest, x), y) && !Overlap(Target(b.dest, y), x);
      OverlapSymmetric(x, y);
      assert !Overlap(x, y) && Target(b.dest, x) != Target(b.dest, y);
      ApartIsIndependent(b.dest, x, y, items[i], items[k]);
    }
  }

  lemma OverlapSymmetric(p: Path, q: Path)
    ensures Overlap(p, q) <==> Overlap(q, p)
  {
  }

  // ---------- the status of an executed batch ----------

  // What a transfer reported: whether its target was published, and the metadata of its error.
  datatype Report = Report(published: bool, err: Option<Mark>)
  datatype Status = Success | PartialStatus | FailedStatus

  function StatusOf(r: Report): Status {
    if r.err.None? then Success else if r.published || r.err.value.changed then PartialStatus else FailedStatus
  }

  function Processed(reports: seq<Report>, sizes: seq<nat>): nat
    requires |reports| == |sizes|
  {
    if sizes == [] then 0
    else
      var n := |sizes| - 1;
      Processed(reports[..n], sizes[..n]) + if reports[n].err.None? || reports[n].published then sizes[n] else 0
  }

  lemma {:induction false} ProcessedWithinTotal(reports: seq<Report>, sizes: seq<nat>)
    requires |reports| == |sizes|
    ensures Processed(reports, sizes) <= Sum(sizes)
    ensures (forall i | 0 <= i < |reports| :: reports[i].err.None?) ==> Processed(reports, sizes) == Sum(sizes)
  {
    if sizes != [] { ProcessedWithinTotal(reports[..|sizes| - 1], sizes[..|sizes| - 1]); }
  }

  /** Both totals add up: over the parts of a batch, and for a single item to its size if it
      counts. */
  lemma {:induction false} TotalsAdd(a: seq<Report>, x: seq<nat>, b: seq<Report>, y: seq<nat>)
    requires |a| == |x| && |b| == |y|
    ensures Sum(x + y) == Sum(x) + Sum(y) && Processed(a + b, x + y) == Processed(a, x) + Processed(b, y)
    ensures |y| == 1 ==> Sum(y) == y[0] && Processed(b, y) == if b[0].err.None? || b[0].published then y[0] else 0
    decreases |y|
  {
    if y == [] {
      assert a + b == a && x + y == x;
    } else {
      var n := |y| - 1;
      TotalsAdd(a, x, b[..n], y[..n]);
      assert (a + b)[..|x| + n] == a + b[..n] && (x + y)[..|x| + n] == x + y[..n];
    }
  }

  /** executePreparedFileOperation: a terminal status, success exactly when every item
      succeeded and failure exactly when none changed anything. */
  method Conclude(reports: seq<Report>, sizes: seq<nat>)
    returns (status: Status, items: seq<Status>, processed: nat, unknown: bool)
    requires |reports| == |sizes|
    ensures |items| == |reports| && forall i | 0 <= i < |items| :: items[i] == StatusOf(reports[i])
    ensures forall i | 0 <= i < |items| ::
              && (items[i] == Success <==> reports[i].err.None?)
              && (items[i] == FailedStatus <==>
                    reports[i].err.Some? && !reports[i].published && !reports[i].err.value.changed)
    ensures status == Success <==> forall i | 0 <= i < |items| :: items[i] == Success
    ensures status == FailedStatus <==> items != [] && forall i | 0 <= i < |items| :: items[i] == FailedStatus
    ensures processed == Processed(reports, sizes)
    ensures unknown <==> exists i | 0 <= i < |reports| :: reports[i].err.Some? && reports[i].err.value.durabilityUnknown
  {
    var succeeded, partial := 0, 0;
    items, processed, unknown := [], 0, false;
    for i := 0 to |reports|
      invariant |items| == i && forall k | 0 <= k < i :: items[k] == StatusOf(reports[k])
      invariant 0 <= succeeded <= i && 0 <= partial <= i - succeeded
      invariant succeeded == i <==> forall k | 0 <= k < i :: items[k] == Success
      invariant succeeded == 0 <==> forall k | 0 <= k < i :: items[k] != Success
      invariant partial == 0 <==> forall k | 0 <= k < i :: items[k] != PartialStatus
      invariant processed == Processed(reports[..i], sizes[..i])
      invariant unknown <==> exists k | 0 <= k < i :: reports[k].err.Some? && reports[k].err.value.durabilityUnknown
    {
      var r := reports[i];
      assert reports[..i + 1][..i] == reports[..i] && sizes[..i + 1][..i] == sizes[..i];
      items := items + [StatusOf(r)];
      if r.err.Some? {
        unknown := unknown || r.err.value.durabilityUnknown;
        if r.published || r.err.value.changed {
          if r.published { processed := processed + sizes[i]; }
          partial := partial + 1;
        }
        continue;
      }
      processed := processed + sizes[i];
      succeeded := succeeded + 1;
    }
    assert reports[..|reports|] == reports && sizes[..|sizes|] == sizes;
    status := if succeeded == |reports| && partial == 0 then Success
              else if succeeded == 0 && partial == 0 then FailedStatus
              else PartialStatus;
  }
}
