/**
 Removing several managed trees as one batch (pkg/filesecurity/managed_roots_linux.go,
 pkg/filesecurity/managed_copy_linux.go): every tree is checked before the first name is
 unlinked.  Any system call may fail; nobody else changes the trees meanwhile.
 */
module BatchRemoval {
  import opened Basics

  type Path = seq<string>

  const MAX_DEPTH := 128
  const MAX_ENTRIES := 100_000

  datatype Kind = Directory | Regular(links: nat) | Symlink | Special

  // What is at each path.
  type Tree = map<Path, Kind>

  predicate WellFormed(fs: Tree) {
    forall q | q in fs && q != [] :: q[..|q| - 1] in fs && fs[q[..|q| - 1]] == Directory
  }

  // p and everything below it
  ghost function Under(fs: Tree, p: Path): set<Path> {
    set q | q in fs && p <= q
  }

  function Children(fs: Tree, p: Path): set<Path> {
    set q | q in fs && p <= q && |q| == |p| + 1
  }

  // What lies in or below the children in `done`, and p itself.
  ghost function Covered(fs: Tree, p: Path, done: set<Path>): set<Path> {
    set q | q in fs && (q == p || (p <= q && |q| > |p| && q[..|p| + 1] in done))
  }

  ghost predicate Shallow(fs: Tree, p: Path, depth: nat) {
    forall q | q in fs && p <= q :: depth + |q| - |p| <= 128
  }

  predicate Removable(k: Kind, nested: bool) {
    match k
    case Directory => true
    case Regular(links) => links == 1
    case Symlink => nested
    case Special => false
  }

  ghost predicate AllRemovable(fs: Tree, p: Path, nested: bool) {
    forall q | q in fs && p <= q :: Removable(fs[q], nested || q != p)
  }

  // ---------- counting entries ----------

  lemma {:induction false} AncestorExists(fs: Tree, q: Path, n: nat)
    requires WellFormed(fs) && q in fs && n <= |q|
    ensures q[..n] in fs
    decreases |q|
  {
    if n < |q| {
      AncestorExists(fs, q[..|q| - 1], n);
      assert q[..|q| - 1][..n] == q[..n];
    } else {
      assert q[..n] == q;
    }
  }

  // Anything below p lies in or below one of its children, and p is a directory.
  lemma FirstBelow(fs: Tree, p: Path, q: Path)
    requires WellFormed(fs) && q in fs && p <= q && |q| > |p|
    ensures q[..|p| + 1] in Children(fs, p) && q[..|p| + 1] <= q && p in fs && fs[p] == Directory
  {
    AncestorExists(fs, q, |p| + 1);
    assert q[..|p| + 1][..|p|] == p;
  }

  lemma CoveredNone(fs: Tree, p: Path)
    requires p in fs
    ensures Covered(fs, p, {}) == {p}
  {
  }

  lemma CoveredAll(fs: Tree, p: Path)
    requires WellFormed(fs) && p in fs
    ensures Covered(fs, p, Children(fs, p)) == Under(fs, p)
  {
    forall q | q in Under(fs, p) && q != p ensures q[..|p| + 1] in Children(fs, p) { FirstBelow(fs, p, q); }
  }

  lemma CoveredOneMore(fs: Tree, p: Path, done: set<Path>, c: Path)
    requires c in Children(fs, p) && c !in done
    ensures Covered(fs, p, done + {c}) == Covered(fs, p, done) + Under(fs, c)
    ensures |Covered(fs, p, done + {c})| == |Covered(fs, p, done)| + |Under(fs, c)|
  {
    forall q | q in fs ensures c <= q <==> |q| > |p| && p <= q && q[..|p| + 1] == c {
      if c <= q { assert q[..|c|] == c && p == c[..|p|] && q[..|p|] == p; }
    }
    assert Covered(fs, p, done + {c}) == Covered(fs, p, done) + Under(fs, c);
    assert Covered(fs, p, done) !! Under(fs, c);
  }

  lemma CoveredWithin(fs: Tree, p: Path, done: set<Path>)
    requires p in fs && done <= Children(fs, p)
    ensures Covered(fs, p, done) <= Under(fs, p) && |Covered(fs, p, done)| <= |Under(fs, p)|
  {
    var a, b := Covered(fs, p, done), Under(fs, p);
    assert a <= b && b == a + (b - a);
  }

  // ---------- the preflight ----------

  // A check that may fail for reasons outside the tree.
  method Check(reliable: bool) returns (ok: bool)
    ensures reliable ==> ok
  {
    ok := *;
    if reliable { ok := true; }
  }

  // What may be removed, with `entries` counted already.
  ghost predicate Fits(fs: Tree, p: Path, depth: nat, entries: nat, nested: bool) {
    p in fs && Shallow(fs, p, depth) && AllRemovable(fs, p, nested) && entries + |Under(fs, p)| <= 100_000
  }

  /** validateManagedRemovableEntryAt: unless a check fails for other reasons, it accepts
      exactly the trees without an entry that may not be removed, nowhere too deep, and with
      few enough entries, all of which it has counted. */
  method Validate(fs: Tree, p: Path, depth: nat, entries: nat, nested: bool, reliable: bool)
    returns (ok: bool, after: nat, faulty: bool)
    requires WellFormed(fs)
    ensures ok ==> Fits(fs, p, depth, entries, nested) && after == entries + |Under(fs, p)|
    ensures !ok && !faulty ==> !Fits(fs, p, depth, entries, nested)
    ensures reliable ==> !faulty
    decreases MAX_DEPTH + 1 - depth
  {
    hide WellFormed, Shallow, AllRemovable, Under, Covered;
    ok, after, faulty := false, entries, false;
    if Fits(fs, p, depth, entries, nested) { NeedsRoom(fs, p, depth, entries, nested); }
    if depth > MAX_DEPTH || entries >= MAX_ENTRIES { return; }
    after := entries + 1;
    var known := Check(reliable);
    faulty := !known;
    if !known || p !in fs || !Removable(fs[p], nested) { return; }
    CoveredNone(fs, p);
    if fs[p] != Directory {
      LeafFits(fs, p, depth, nested);
      return true, after, false;
    }
    var todo := Children(fs, p);
    ghost var done: set<Path> := {};
    while todo != {}
      invariant todo + done == Children(fs, p) && todo !! done
      invariant after == entries + |Covered(fs, p, done)| && after <= MAX_ENTRIES
      invariant forall c | c in done :: Shallow(fs, c, depth + 1) && AllRemovable(fs, c, true)
    {
      var c :| c in todo;
      todo := todo - {c};
      CoveredOneMore(fs, p, done, c);
      ChildFits(fs, p, depth, entries, nested, done, c);
      ok, after, faulty := Validate(fs, c, depth + 1, after, true, reliable);
      if !ok { return; }
      done := done + {c};
    }
    CoveredAll(fs, p);
    DirectoryFits(fs, p, depth, nested);
    ok := Check(reliable);
    faulty := !ok;
  }

  lemma NeedsRoom(fs: Tree, p: Path, depth: nat, entries: nat, nested: bool)
    requires Fits(fs, p, depth, entries, nested)
    ensures depth <= MAX_DEPTH && entries < MAX_ENTRIES && Removable(fs[p], nested)
  {
    assert p in Under(fs, p);
  }

  // A tree that fits has children that fit when their turn comes.
  lemma ChildFits(fs: Tree, p: Path, depth: nat, entries: nat, nested: bool, done: set<Path>, c: Path)
    requires WellFormed(fs) && p in fs && c in Children(fs, p) && c !in done && done <= Children(fs, p)
    ensures Fits(fs, p, depth, entries, nested) ==> Fits(fs, c, depth + 1, entries + |Covered(fs, p, done)|, true)
  {
    hide Covered, Under;
    CoveredOneMore(fs, p, done, c);
    CoveredWithin(fs, p, done + {c});
    if Fits(fs, p, depth, entries, nested) {
      ShallowBelow(fs, p, depth, c);
      forall q | q in fs && c <= q ensures Removable(fs[q], true) { assert p <= q && q != p; }
    }
  }

  lemma LeafFits(fs: Tree, p: Path, depth: nat, nested: bool)
    requires WellFormed(fs) && p in fs && fs[p] != Directory && depth <= MAX_DEPTH && Removable(fs[p], nested)
    ensures Under(fs, p) == {p} && Shallow(fs, p, depth) && AllRemovable(fs, p, nested)
  {
    forall q | q in fs && p <= q ensures q == p { if |q| > |p| { FirstBelow(fs, p, q); } }
  }

  lemma DirectoryFits(fs: Tree, p: Path, depth: nat, nested: bool)
    requires WellFormed(fs) && p in fs && depth <= MAX_DEPTH && Removable(fs[p], nested)
    requires forall c | c in Children(fs, p) :: Shallow(fs, c, depth + 1) && AllRemovable(fs, c, true)
    ensures Shallow(fs, p, depth) && AllRemovable(fs, p, nested)
  {
    forall q | q in fs && p <= q && q != p
      ensures q[..|p| + 1] in Children(fs, p) && q[..|p| + 1] <= q
    {
      FirstBelow(fs, p, q);
    }
  }

  // ---------- removal ----------

  // now is what is left of was, and only entries at or below p are missing.
  ghost predicate LostOnlyUnder(was: Tree, now: Tree, p: Path) {
    && (forall q | q in now :: q in was && now[q] == was[q])
    && (forall q | q in was && !(p <= q) :: q in now)
  }

  ghost predicate Gone(was: Tree, now: Tree, p: Path) {
    LostOnlyUnder(was, now, p) && forall q | q in now :: !(p <= q)
  }

  lemma LostTrans(a: Tree, b: Tree, c: Tree, p: Path, child: Path)
    requires LostOnlyUnder(a, b, p) && LostOnlyUnder(b, c, child) && p <= child
    ensures LostOnlyUnder(a, c, p)
  {
  }

  // Other children keep their trees while one is removed.
  lemma OthersKeep(was: Tree, now: Tree, p: Path, c: Path, d: Path)
    requires LostOnlyUnder(was, now, c) && c in Children(was, p) && d in Children(was, p) && c != d
    ensures Under(now, d) == Under(was, d)
  {
    forall q | q in was && d <= q ensures !(c <= q) { assert q[..|d|] == d && |c| == |d|; }
  }

  lemma ShallowBelow(fs: Tree, p: Path, depth: nat, c: Path)
    requires WellFormed(fs) && Shallow(fs, p, depth) && c in Children(fs, p)
    ensures Shallow(fs, c, depth + 1)
  {
    forall q | q in fs && c <= q ensures depth + 1 + |q| - |c| <= MAX_DEPTH { assert p <= q; }
  }

  class Trees {
    // no call fails
    const reliable: bool

    var fs: Tree
    // managedRemovalState
    var entries: nat
    var changed: bool
    // calls that failed so far
    var faults: nat
    // an unlink that was not synced
    var unsynced: bool

    constructor (fs: Tree, reliable: bool)
      ensures this.fs == fs && this.reliable == reliable && faults == 0
    {
      this.fs, this.reliable, entries, changed, faults, unsynced := fs, reliable, 0, false, 0, false;
    }

    // A call that may fail.
    method Try() returns (ok: bool)
      modifies this`faults
      ensures faults == old(faults) + if ok then 0 else 1
      ensures reliable ==> ok
    {
      ok := *;
      if reliable { ok := true; }
      if !ok { faults := faults + 1; }
    }

    /** removeManagedEntryAtPrevalidated, on a tree that passed the preflight: its own depth
        and entry limits are never met, and an error says that something was unlinked
        exactly when something was.  When no call fails, the whole tree is gone. */
    method Remove(p: Path, depth: nat) returns (err: Option<Mark>)
      requires WellFormed(fs) && p != [] && p in fs && Shallow(fs, p, depth) && entries + |Under(fs, p)| <= MAX_ENTRIES
      requires !unsynced
      modifies this
      ensures WellFormed(fs) && LostOnlyUnder(old(fs), fs, p)
      ensures changed == (old(changed) || fs != old(fs))
      ensures if err.Some? then err.value == Mark(changed, unsynced) else !unsynced
      ensures err.None? ==> Gone(old(fs), fs, p) && entries == old(entries) + |Under(old(fs), p)|
      ensures faults >= old(faults) && (faults == old(faults) <==> err.None?) && (reliable ==> faults == old(faults))
      decreases MAX_DEPTH + 1 - depth
    {
      hide WellFormed, Shallow, Under, Covered, LostOnlyUnder, Gone;
      LostRefl(fs, p);
      RootCounts(fs, p, depth);
      if depth > MAX_DEPTH || entries >= MAX_ENTRIES {
        assert false;
      }
      entries := entries + 1;
      var known := Try();
      if !known { return Some(Mark(changed, false)); }
      CoveredNone(fs, p);
      ghost var was := fs;
      if fs[p] == Directory {
        err := RemoveChildren(p, depth);
        if err.Some? { return; }
      } else {
        NoChildren(fs, p);
      }
      var unlinked := Try();
      if !unlinked { return Some(Mark(changed, false)); }
      UnlinkLast(was, fs, p);
      fs, changed, unsynced := fs - {p}, true, true;
      var synced := Try();
      if synced { unsynced := false; }
      err := if synced then None else Some(Mark(true, true));
    }

    // The canonicalisation loop: a configured root is refused, and so are overlapping paths.
    static method CheckPaths(paths: seq<Path>) returns (ok: bool)
      ensures ok ==> Apart(paths) && forall i | 0 <= i < |paths| :: paths[i] != []
      ensures !ok ==> !(Apart(paths) && forall i | 0 <= i < |paths| :: paths[i] != [])
    {
      for i := 0 to |paths|
        invariant forall k, m | 0 <= k < m < i :: !Overlap(paths[k], paths[m])
        invariant forall k | 0 <= k < i :: paths[k] != []
      {
        if paths[i] == [] { return false; }
        for k := 0 to i
          invariant forall m | 0 <= m < k :: !Overlap(paths[m], paths[i])
        {
          if Overlap(paths[k], paths[i]) { return false; }
        }
      }
      return true;
    }

    method Preflight(paths: seq<Path>) returns (ok: bool)
      requires WellFormed(fs) && forall i | 0 <= i < |paths| :: paths[i] != []
      modifies this`faults
      ensures faults >= old(faults) && (ok ==> faults == old(faults)) && (reliable ==> faults == old(faults))
      ensures ok ==> forall i | 0 <= i < |paths| :: Fine(fs, paths[i])
      ensures !ok && faults == old(faults) ==> exists i | 0 <= i < |paths| :: !Fine(fs, paths[i])
    {
      hide WellFormed, Fits;
      ok := false;
      for i := 0 to |paths|
        invariant faults == old(faults) && forall k | 0 <= k < i :: Fine(fs, paths[k])
      {
        var resolved := Try();
        if !resolved { return false; }
        var count, faulty;
        ok, count, faulty := Validate(fs, paths[i], 0, 0, false, reliable);
        if !ok {
          if faulty { faults := faults + 1; }
          return;
        }
      }
      ok := true;
    }

    /** RemoveAllBatch: nothing is unlinked unless every path passed the preflight; what was
        completed is a prefix of the request; an error says that something was unlinked
        exactly when something was; and nothing outside the requested trees is touched.  When
        no call fails, everything goes exactly if every path is fit for removal. */
    method RemoveAllBatch(paths: seq<Path>) returns (completed: seq<Path>, marked: bool, err: Option<Mark>)
      requires WellFormed(fs)
      modifies this
      ensures WellFormed(fs) && completed <= paths && Left(old(fs), fs, paths, |completed|)
      ensures err.None? ==> completed == paths && Between(old(fs), fs, paths, |paths|)
      ensures !AllFine(old(fs), paths) ==> err.Some? && fs == old(fs)
      ensures marked == (fs != old(fs)) && (if err.Some? then err.value == Mark(marked, unsynced) else !unsynced)
      ensures faults >= old(faults) && (faults == old(faults) ==> (err.None? <==> AllFine(old(fs), paths)))
      ensures reliable ==> faults == old(faults)
    {
      hide WellFormed, Left, Between, Fine, Apart, Shallow, Under, LostOnlyUnder, Gone;
      completed, marked, err, unsynced := [], false, Some(Mark(false, false)), false;
      NothingLeftOut(fs, paths);
      if paths == [] { return; }
      var leased := Try();
      var ok := CheckPaths(paths);
      AllFinePaths(fs, paths);
      if !leased || !ok { return; }
      ok := Preflight(paths);
      if !ok { return; }
      ghost var was := fs;
      for i := 0 to |paths|
        invariant WellFormed(fs) && completed == paths[..i] && Between(was, fs, paths, i)
        invariant marked == (fs != was) && marked == (i > 0) && faults == old(faults) && !unsynced
      {
        var same := Try();
        BetweenIsLeft(was, fs, paths, i);
        if !same {
          err := Some(Mark(marked, false));
          return;
        }
        ReadyNext(was, fs, paths, i);
        entries, changed := 0, false;
        ghost var before := fs;
        err := Remove(paths[i], 0);
        RemovedNext(was, before, fs, paths, i, err.None?);
        if err.Some? {
          if |completed| > 0 || err.value.changed {
            marked := true;
            err := Some(Mark(true, err.value.durabilityUnknown));
          }
          return;
        }
        completed := completed + [paths[i]];
        marked := true;
      }
      BetweenIsLeft(was, fs, paths, |paths|);
      err := None;
    }

    // The loop over a directory's entries.
    method RemoveChildren(p: Path, depth: nat) returns (err: Option<Mark>)
      requires WellFormed(fs) && p != [] && p in fs && Shallow(fs, p, depth) && depth <= MAX_DEPTH
      requires entries >= 1 && entries - 1 + |Under(fs, p)| <= MAX_ENTRIES && !unsynced
      modifies this
      ensures WellFormed(fs) && LostOnlyUnder(old(fs), fs, p) && p in fs
      ensures changed == (old(changed) || fs != old(fs))
      ensures if err.Some? then err.value == Mark(changed, unsynced) else !unsynced
      ensures err.None? ==> Children(fs, p) == {} && entries == old(entries) - 1 + |Under(old(fs), p)|
      ensures faults >= old(faults) && (faults == old(faults) <==> err.None?) && (reliable ==> faults == old(faults))
      decreases MAX_DEPTH + 1 - depth, 0
    {
      hide WellFormed, Shallow, Under, Covered, LostOnlyUnder, Gone, Progress, Children;
      ghost var was := fs;
      ProgressStart(fs, p);
      var todo := Children(fs, p);
      ghost var done: set<Path> := {};
      while todo != {}
        invariant Progress(was, fs, p, todo, done)
        invariant changed == (old(changed) || fs != was) && !unsynced
        invariant entries == old(entries) - 1 + |Covered(was, p, done)| && faults == old(faults)
      {
        var c :| c in todo;
        NextChild(was, fs, p, depth, todo, done, c);
        ghost var before := fs;
        err := Remove(c, depth + 1);
        ChildLost(was, before, fs, p, todo, done, c);
        if err.Some? { return; }
        ChildGone(was, before, fs, p, todo, done, c);
        todo := todo - {c};
        done := done + {c};
      }
      ProgressEnd(was, fs, p, done);
      var read := Try();
      err := if read then None else Some(Mark(changed, false));
    }
  }

  // ---------- batches ----------

  predicate Overlap(p: Path, q: Path) {
    p <= q || q <= p
  }

  ghost predicate Apart(paths: seq<Path>) {
    forall i, k | 0 <= i < k < |paths| :: !Overlap(paths[i], paths[k])
  }

  // What the preflight demands of one path.
  ghost predicate Fine(fs: Tree, p: Path) {
    p != [] && Fits(fs, p, 0, 0, false)
  }

  ghost predicate AllFine(fs: Tree, paths: seq<Path>) {
    paths != [] && Apart(paths) && forall i | 0 <= i < |paths| :: Fine(fs, paths[i])
  }

  // What a batch that got through the first n paths, and perhaps part of the next, leaves.
  ghost predicate Left(was: Tree, now: Tree, paths: seq<Path>, n: nat)
    requires n <= |paths|
  {
    && (forall q | q in now :: q in was && now[q] == was[q])
    && (forall q | q in was && q !in now :: exists i | 0 <= i <= n && i < |paths| :: paths[i] <= q)
    && (forall i, q | 0 <= i < n && q in now :: !(paths[i] <= q))
  }

  // ... when it stands exactly between two paths.
  ghost predicate Between(was: Tree, now: Tree, paths: seq<Path>, n: nat)
    requires n <= |paths|
  {
    && Left(was, now, paths, n)
    && forall k, q | n <= k < |paths| && q in was && paths[k] <= q :: q in now
  }

  // Part way through the children of p: those in `todo` are intact, those in `done` gone.
  ghost predicate Progress(was: Tree, fs: Tree, p: Path, todo: set<Path>, done: set<Path>) {
    && WellFormed(was) && WellFormed(fs) && p in was && p in fs && LostOnlyUnder(was, fs, p)
    && todo + done == Children(was, p) && todo !! done && Children(fs, p) == todo
    && forall c | c in todo :: Under(fs, c) == Under(was, c)
  }

  lemma ProgressStart(fs: Tree, p: Path)
    requires WellFormed(fs) && p in fs
    ensures Progress(fs, fs, p, Children(fs, p), {}) && |Covered(fs, p, {})| == 1
  {
    hide WellFormed, Under, Covered;
    CoveredNone(fs, p);
  }

  lemma NextChild(was: Tree, fs: Tree, p: Path, depth: nat, todo: set<Path>, done: set<Path>, c: Path)
    requires Progress(was, fs, p, todo, done) && c in todo && Shallow(was, p, depth)
    ensures WellFormed(fs) && Shallow(fs, c, depth + 1) && c != [] && c in fs && depth < MAX_DEPTH
    ensures |Covered(was, p, done)| + |Under(fs, c)| <= |Under(was, p)|
    ensures |Covered(was, p, done + {c})| == |Covered(was, p, done)| + |Under(fs, c)|
  {
    hide WellFormed, Shallow, Under, Covered, LostOnlyUnder;
    ChildReady(was, fs, p, depth, done, c);
  }

  lemma ChildLost(was: Tree, before: Tree, fs: Tree, p: Path, todo: set<Path>, done: set<Path>, c: Path)
    requires Progress(was, before, p, todo, done) && c in todo && LostOnlyUnder(before, fs, c)
    ensures LostOnlyUnder(was, fs, p) && p in fs
    ensures before != was || fs != before <==> fs != was
  {
    hide WellFormed, Under;
    LostTrans(was, before, fs, p, c);
    StillThere(before, fs, p, c);
    SomethingLost(was, before, fs);
  }

  lemma ChildGone(was: Tree, before: Tree, fs: Tree, p: Path, todo: set<Path>, done: set<Path>, c: Path)
    requires Progress(was, before, p, todo, done) && c in todo && Gone(before, fs, c) && WellFormed(fs)
    ensures Progress(was, fs, p, todo - {c}, done + {c})
  {
    hide WellFormed, Under;
    ChildLost(was, before, fs, p, todo, done, c);
    ChildrenWithout(before, fs, p, c);
    forall d | d in todo && d != c ensures Under(fs, d) == Under(was, d) { OthersKeep(before, fs, p, c, d); }
  }

  lemma ProgressEnd(was: Tree, fs: Tree, p: Path, done: set<Path>)
    requires Progress(was, fs, p, {}, done)
    ensures WellFormed(fs) && p in fs && LostOnlyUnder(was, fs, p) && Children(fs, p) == {}
    ensures Covered(was, p, done) == Under(was, p)
  {
    hide WellFormed, Under, Covered, LostOnlyUnder;
    assert {} + done == done;
    CoveredAll(was, p);
  }

  lemma LostRefl(fs: Tree, p: Path)
    ensures LostOnlyUnder(fs, fs, p)
  {
  }

  lemma RootCounts(fs: Tree, p: Path, depth: nat)
    requires p in fs && Shallow(fs, p, depth)
    ensures depth <= MAX_DEPTH && |Under(fs, p)| >= 1
  {
    assert p in Under(fs, p);
  }

  lemma NoChildren(fs: Tree, p: Path)
    requires WellFormed(fs) && p in fs && fs[p] != Directory
    ensures Children(fs, p) == {} && |Under(fs, p)| == 1
  {
    forall q | q in fs && p <= q ensures q == p { if |q| > |p| { FirstBelow(fs, p, q); } }
    assert Under(fs, p) == {p};
  }

  lemma UnlinkLast(was: Tree, fs: Tree, p: Path)
    requires WellFormed(fs) && p != [] && p in fs && Children(fs, p) == {} && LostOnlyUnder(was, fs, p)
    ensures WellFormed(fs - {p}) && LostOnlyUnder(was, fs - {p}, p) && Gone(was, fs - {p}, p)
    ensures p in was && fs - {p} != was
  {
    forall q | q in fs && p <= q ensures q == p { if |q| > |p| { FirstBelow(fs, p, q); } }
    forall q | q in fs - {p} && q != [] ensures q[..|q| - 1] != p { assert q[..|q| - 1] == p ==> p <= q; }
  }

  // What the next child needs: its tree is intact, not too deep, and fits the count.
  lemma ChildReady(was: Tree, fs: Tree, p: Path, depth: nat, done: set<Path>, c: Path)
    requires WellFormed(was) && WellFormed(fs) && LostOnlyUnder(was, fs, p) && p in was && Shallow(was, p, depth)
    requires c in Children(was, p) && c !in done && done <= Children(was, p) && c in Children(fs, p)
    requires Under(fs, c) == Under(was, c)
    ensures Shallow(fs, c, depth + 1) && c != [] && c in fs && depth < MAX_DEPTH
    ensures |Covered(was, p, done)| + |Under(fs, c)| <= |Under(was, p)|
    ensures |Covered(was, p, done + {c})| == |Covered(was, p, done)| + |Under(fs, c)|
  {
    hide Covered, Under;
    CoveredOneMore(was, p, done, c);
    CoveredWithin(was, p, done + {c});
    ShallowBelow(was, p, depth, c);
    ShallowLess(was, fs, p, c, depth + 1);
  }

  lemma ShallowLess(was: Tree, fs: Tree, p: Path, c: Path, depth: nat)
    requires LostOnlyUnder(was, fs, p) && Shallow(was, c, depth) && c in was
    ensures Shallow(fs, c, depth) && depth <= MAX_DEPTH
  {
  }

  lemma StillThere(before: Tree, fs: Tree, p: Path, c: Path)
    requires LostOnlyUnder(before, fs, c) && p in before && c in Children(before, p)
    ensures p in fs
  {
  }

  lemma SomethingLost(was: Tree, before: Tree, fs: Tree)
    requires (forall q | q in before :: q in was && before[q] == was[q])
    requires forall q | q in fs :: q in before && fs[q] == before[q]
    ensures before != was || fs != before <==> fs != was
  {
    if fs == was {
      assert before == was;
    }
  }

  lemma ChildrenWithout(before: Tree, fs: Tree, p: Path, c: Path)
    requires Gone(before, fs, c) && c in Children(before, p)
    ensures Children(fs, p) == Children(before, p) - {c}
  {
    forall d | d in Children(before, p) && d != c ensures d in fs { assert c <= d ==> c == d; }
  }

  lemma AllFinePaths(fs: Tree, paths: seq<Path>)
    ensures AllFine(fs, paths) ==> Apart(paths) && forall i | 0 <= i < |paths| :: paths[i] != []
  {
    hide Fits, Apart;
  }

  lemma NothingLeftOut(fs: Tree, paths: seq<Path>)
    ensures Left(fs, fs, paths, 0) && Between(fs, fs, paths, 0)
  {
  }

  lemma BetweenIsLeft(was: Tree, now: Tree, paths: seq<Path>, n: nat)
    requires n <= |paths| && Between(was, now, paths, n)
    ensures Left(was, now, paths, n)
  {
  }

  lemma ReadyNext(was: Tree, fs: Tree, paths: seq<Path>, i: nat)
    requires i < |paths| && Between(was, fs, paths, i) && Fine(was, paths[i])
    ensures var p := paths[i]; p != [] && p in fs && Shallow(fs, p, 0) && |Under(fs, p)| <= MAX_ENTRIES
  {
    assert Under(fs, paths[i]) == Under(was, paths[i]);
  }

  lemma RemovedNext(was: Tree, before: Tree, fs: Tree, paths: seq<Path>, i: nat, gone: bool)
    requires i < |paths| && Apart(paths) && Between(was, before, paths, i) && LostOnlyUnder(before, fs, paths[i])
    requires paths[i] in before && (gone ==> Gone(before, fs, paths[i]))
    ensures Left(was, fs, paths, i) && (fs != was <==> before != was || fs != before)
    ensures gone ==> Between(was, fs, paths, i + 1) && fs != was
  {
    hide Left, Between, Apart, LostOnlyUnder, Gone;
    BetweenIsLeft(was, before, paths, i);
    LeftMore(was, before, fs, paths, i);
    if gone {
      GoneFacts(before, fs, paths[i]);
      LeftNext(was, fs, paths, i);
      KeptRest(was, before, fs, paths, i);
      MakeBetween(was, fs, paths, i + 1);
    }
  }

  lemma LeftMore(was: Tree, before: Tree, fs: Tree, paths: seq<Path>, i: nat)
    requires i < |paths| && Left(was, before, paths, i) && LostOnlyUnder(before, fs, paths[i])
    ensures Left(was, fs, paths, i) && (fs != was <==> before != was || fs != before)
  {
    SomethingLost(was, before, fs);
    forall q | q in was && q !in fs ensures exists k | 0 <= k <= i && k < |paths| :: paths[k] <= q {
      if q in before { assert paths[i] <= q; }
    }
  }

  lemma GoneFacts(before: Tree, fs: Tree, p: Path)
    requires Gone(before, fs, p) && p in before
    ensures fs != before && forall q | q in fs :: !(p <= q)
  {
  }

  lemma LeftNext(was: Tree, fs: Tree, paths: seq<Path>, i: nat)
    requires i < |paths| && Left(was, fs, paths, i) && forall q | q in fs :: !(paths[i] <= q)
    ensures Left(was, fs, paths, i + 1)
  {
    forall q | q in was && q !in fs ensures exists k | 0 <= k <= i + 1 && k < |paths| :: paths[k] <= q {
      var k :| 0 <= k <= i && k < |paths| && paths[k] <= q;
    }
  }

  lemma KeptRest(was: Tree, before: Tree, fs: Tree, paths: seq<Path>, i: nat)
    requires i < |paths| && Apart(paths) && Between(was, before, paths, i) && LostOnlyUnder(before, fs, paths[i])
    ensures forall k, q | i + 1 <= k < |paths| && q in was && paths[k] <= q :: q in fs
  {
    hide Left;
    forall k, q | i + 1 <= k < |paths| && q in was && paths[k] <= q ensures q in fs { NotBoth(paths[i], paths[k], q); }
  }

  lemma MakeBetween(was: Tree, fs: Tree, paths: seq<Path>, n: nat)
    requires n <= |paths| && Left(was, fs, paths, n)
    requires forall k, q | n <= k < |paths| && q in was && paths[k] <= q :: q in fs
    ensures Between(was, fs, paths, n)
  {
    hide Left;
  }

  lemma NotBoth(p: Path, r: Path, q: Path)
    requires !Overlap(p, r) && r <= q
    ensures !(p <= q)
  {
    assert r == q[..|r|];
  }
}
