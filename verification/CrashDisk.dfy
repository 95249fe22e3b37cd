/**
 A disk whose directory entries and file contents reach stable storage only when synced.

 The volatile state is what system calls see.  `lag` remembers, for each directory entry
 changed since its directory was last synced, what a crash may still bring back; `dirty`
 holds the files whose contents were not synced since they were last written.
 */
module CrashDisk {
  import opened Basics

  type Inode = nat
  type Name = string
  type Bytes = seq<bv8>

  datatype Disk = Disk(
    next: Inode,
    dirs: map<Inode, map<Name, Inode>>,
    files: map<Inode, Bytes>,
    dirty: set<Inode>,
    lag: set<(Inode, Name, Option<Inode>)>)

  // What the entry names now.
  function Bound(d: Disk, dir: Inode, n: Name): Option<Inode> {
    if dir in d.dirs && n in d.dirs[dir] then Some(d.dirs[dir][n]) else None
  }

  // What the entry may name after a crash.
  predicate Possible(d: Disk, dir: Inode, n: Name, b: Option<Inode>) {
    b == Bound(d, dir, n) || (dir, n, b) in d.lag
  }

  ghost predicate Durable(d: Disk, dir: Inode, n: Name) {
    forall b | Possible(d, dir, n, b) :: b == Bound(d, dir, n)
  }

  ghost predicate SameNode(d: Disk, e: Disk, i: Inode) {
    && (i in d.dirs <==> i in e.dirs) && (i in d.dirs ==> d.dirs[i] == e.dirs[i])
    && (i in d.files <==> i in e.files) && (i in d.files ==> d.files[i] == e.files[i])
    && (i in d.dirty <==> i in e.dirty)
    && (forall n, b :: (i, n, b) in d.lag <==> (i, n, b) in e.lag)
  }

  // Inode i is the same in both except for its entry n.
  ghost predicate SameBut(d: Disk, e: Disk, i: Inode, n: Name) {
    && i in d.dirs && i in e.dirs
    && (forall m | m != n :: Bound(d, i, m) == Bound(e, i, m))
    && (forall m, b | m != n :: (i, m, b) in d.lag <==> (i, m, b) in e.lag)
  }

  // Nothing is recorded about inodes not handed out yet.
  ghost predicate Fresh(d: Disk) {
    (forall e | e in d.lag :: e.0 < d.next) && forall i: Inode | i in d.dirs :: i < d.next
  }

  // ---------- system calls that take effect ----------

  // Name or unname an entry of an existing directory.
  function Bind(d: Disk, dir: Inode, n: Name, b: Option<Inode>): (r: Disk)
    requires dir in d.dirs
    ensures Bound(r, dir, n) == b && r.next == d.next && dir in r.dirs
  {
    var entries := if b.Some? then d.dirs[dir][n := b.value] else d.dirs[dir] - {n};
    d.(dirs := d.dirs[dir := entries], lag := d.lag + {(dir, n, Bound(d, dir, n))})
  }

  // mkdirat and openat(O_CREAT | O_EXCL): the new object is d.next.
  function MakeDir(d: Disk, dir: Inode, n: Name): (r: Disk)
    requires dir in d.dirs
  {
    Bind(d.(next := d.next + 1, dirs := d.dirs[d.next := map[]]), dir, n, Some(d.next))
  }

  function MakeFile(d: Disk, dir: Inode, n: Name): (r: Disk)
    requires dir in d.dirs
  {
    Bind(d.(next := d.next + 1, files := d.files[d.next := []], dirty := d.dirty + {d.next}), dir, n, Some(d.next))
  }

  function WriteFile(d: Disk, i: Inode, data: Bytes): Disk {
    d.(files := d.files[i := data], dirty := d.dirty + {i})
  }

  function SyncFile(d: Disk, i: Inode): Disk {
    d.(dirty := d.dirty - {i})
  }

  function SyncDir(d: Disk, dir: Inode): Disk {
    d.(lag := set e | e in d.lag && e.0 != dir)
  }

  // renameat2 between two directories, with and without RENAME_EXCHANGE.
  function Move(d: Disk, from: Inode, n: Name, to: Inode, m: Name): (r: Disk)
    requires from in d.dirs && to in d.dirs && from != to
  {
    Bind(Bind(d, from, n, None), to, m, Bound(d, from, n))
  }

  function Exchange(d: Disk, from: Inode, n: Name, to: Inode, m: Name): (r: Disk)
    requires from in d.dirs && to in d.dirs && from != to
  {
    Bind(Bind(d, from, n, Bound(d, to, m)), to, m, Bound(d, from, n))
  }

  // ---------- what they leave alone ----------

  lemma BindKeepsOthers(d: Disk, dir: Inode, n: Name, b: Option<Inode>)
    requires dir in d.dirs
    ensures forall i: Inode | i != dir :: SameNode(d, Bind(d, dir, n, b), i)
    ensures SameBut(d, Bind(d, dir, n, b), dir, n)
    ensures forall p: Option<Inode> :: Possible(Bind(d, dir, n, b), dir, n, p) <==> p == b || Possible(d, dir, n, p)
    ensures Fresh(d) && dir < d.next ==> Fresh(Bind(d, dir, n, b))
  {
  }

  lemma MakeKeepsOthers(d: Disk, dir: Inode, n: Name)
    requires dir in d.dirs && Fresh(d) && dir < d.next
    ensures forall i: Inode | i != dir && i < d.next ::
              SameNode(d, MakeDir(d, dir, n), i) && SameNode(d, MakeFile(d, dir, n), i)
    ensures SameBut(d, MakeDir(d, dir, n), dir, n) && SameBut(d, MakeFile(d, dir, n), dir, n)
    ensures Fresh(MakeDir(d, dir, n)) && Fresh(MakeFile(d, dir, n))
    ensures MakeDir(d, dir, n).next == d.next + 1 && MakeFile(d, dir, n).next == d.next + 1
    ensures Bound(MakeDir(d, dir, n), dir, n) == Some(d.next) && Bound(MakeFile(d, dir, n), dir, n) == Some(d.next)
    ensures d.next in MakeDir(d, dir, n).dirs && MakeDir(d, dir, n).dirs[d.next] == map[]
    ensures forall m, b :: (d.next, m, b) !in MakeDir(d, dir, n).lag
  {
  }

  lemma SyncKeepsOthers(d: Disk, dir: Inode)
    ensures forall i: Inode | i != dir :: SameNode(d, SyncDir(d, dir), i)
    ensures Fresh(d) ==> Fresh(SyncDir(d, dir))
    ensures forall n, b :: (dir, n, b) !in SyncDir(d, dir).lag
    ensures forall n, b: Option<Inode> :: Possible(SyncDir(d, dir), dir, n, b) <==> b == Bound(d, dir, n)
  {
  }

  // ---------- complete trees ----------

  datatype Entry = Entry(name: Name, tree: Tree)
  datatype Tree = File(data: Bytes, links: nat) | Dir(entries: seq<Entry>) | Special

  ghost predicate Named(es: seq<Entry>, n: Name) {
    exists k | 0 <= k < |es| :: es[k].name == n
  }

  // Inode i durably holds exactly the tree t, using only inodes in [i, hi).
  ghost predicate Complete(d: Disk, i: Inode, t: Tree, hi: Inode)
    decreases t
  {
    && i < hi
    && match t
       case File(data, _) => i in d.files && d.files[i] == data && i !in d.dirty && i !in d.dirs
       case Dir(es) =>
         && i in d.dirs && (forall n, b :: (i, n, b) !in d.lag)
         && (forall n :: n in d.dirs[i] <==> Named(es, n))
         && (forall k | 0 <= k < |es| :: ChildComplete(d, i, es[k], hi))
       case Special => false
  }

  ghost predicate ChildComplete(d: Disk, i: Inode, e: Entry, hi: Inode)
    decreases e
  {
    i in d.dirs && e.name in d.dirs[i] && i < d.dirs[i][e.name] && Complete(d, d.dirs[i][e.name], e.tree, hi)
  }

  // Completeness only depends on the inodes in [i, hi).
  lemma {:induction false} CompleteFrame(d: Disk, e: Disk, i: Inode, t: Tree, hi: Inode, hi': Inode)
    requires Complete(d, i, t, hi) && hi <= hi'
    requires forall j: Inode | i <= j < hi :: SameNode(d, e, j)
    ensures Complete(e, i, t, hi')
    decreases t
  {
    assert SameNode(d, e, i);
    if t.Dir? {
      forall k | 0 <= k < |t.entries| ensures ChildComplete(e, i, t.entries[k], hi') {
        assert ChildComplete(d, i, t.entries[k], hi);
        ChildFrame(d, e, i, t.entries[k], hi, hi');
      }
    }
  }

  lemma {:induction false} ChildFrame(d: Disk, e: Disk, i: Inode, x: Entry, hi: Inode, hi': Inode)
    requires ChildComplete(d, i, x, hi) && hi <= hi' && i in e.dirs && x.name in e.dirs[i]
    requires e.dirs[i][x.name] == d.dirs[i][x.name]
    requires forall j: Inode | i < j < hi :: SameNode(d, e, j)
    ensures ChildComplete(e, i, x, hi')
    decreases x
  {
    CompleteFrame(d, e, d.dirs[i][x.name], x.tree, hi, hi');
  }

  // ---------- crashes ----------

  // e is a disk that may be found after a crash of d.
  ghost predicate CrashesTo(d: Disk, e: Disk) {
    && (forall dir: Inode, n: Name :: Possible(d, dir, n, Bound(e, dir, n)))
    && (forall i: Inode | i in d.dirs :: i in e.dirs)
    && (forall i: Inode | i in d.files && i !in d.dirty :: i in e.files && e.files[i] == d.files[i])
  }

  // Inode i reads back as the tree t.
  ghost predicate Holds(e: Disk, i: Inode, t: Tree)
    decreases t
  {
    match t
    case File(data, _) => i in e.files && e.files[i] == data
    case Dir(es) =>
      && i in e.dirs && (forall n :: n in e.dirs[i] <==> Named(es, n))
      && (forall k | 0 <= k < |es| :: es[k].name in e.dirs[i] && Holds(e, e.dirs[i][es[k].name], es[k].tree))
    case Special => false
  }

  /** A complete tree reads back in full after any crash. */
  lemma {:induction false} CompleteSurvives(d: Disk, e: Disk, i: Inode, t: Tree, hi: Inode)
    requires Complete(d, i, t, hi) && CrashesTo(d, e)
    ensures Holds(e, i, t)
    decreases t
  {
    if t.Dir? {
      forall n ensures Bound(e, i, n) == Bound(d, i, n) { assert Possible(d, i, n, Bound(e, i, n)); }
      forall n ensures n in e.dirs[i] <==> Named(t.entries, n) { assert Bound(e, i, n) == Bound(d, i, n); }
      forall k | 0 <= k < |t.entries|
        ensures t.entries[k].name in e.dirs[i] && Holds(e, e.dirs[i][t.entries[k].name], t.entries[k].tree)
      {
        var x := t.entries[k];
        assert ChildComplete(d, i, x, hi) && Bound(e, i, x.name) == Bound(d, i, x.name);
        ChildSurvives(d, e, i, x, hi);
      }
    }
  }

  lemma {:induction false} ChildSurvives(d: Disk, e: Disk, i: Inode, x: Entry, hi: Inode)
    requires ChildComplete(d, i, x, hi) && CrashesTo(d, e)
    ensures Holds(e, d.dirs[i][x.name], x.tree)
    decreases x
  {
    CompleteSurvives(d, e, d.dirs[i][x.name], x.tree, hi);
  }

  function Count(t: Tree): nat
    decreases t
  {
    if t.Dir? then 1 + CountAll(t.entries) else 1
  }

  function CountAll(es: seq<Entry>): nat
    decreases es
  {
    if es == [] then 0 else CountAll(es[..|es| - 1]) + Count(es[|es| - 1].tree)
  }

  function Size(t: Tree): nat
    decreases t
  {
    match t case File(data, _) => |data| case Dir(es) => SizeAll(es) case Special => 0
  }

  function SizeAll(es: seq<Entry>): nat
    decreases es
  {
    if es == [] then 0 else SizeAll(es[..|es| - 1]) + Size(es[|es| - 1].tree)
  }

  lemma {:induction false} PrefixIsSmaller(es: seq<Entry>, n: nat)
    requires n <= |es|
    ensures CountAll(es[..n]) <= CountAll(es) && SizeAll(es[..n]) <= SizeAll(es)
    ensures n > 0 ==>
              CountAll(es[..n]) == CountAll(es[..n - 1]) + Count(es[n - 1].tree) &&
                SizeAll(es[..n]) == SizeAll(es[..n - 1]) + Size(es[n - 1].tree)
    decreases |es|
  {
    hide Count, Size;
    if n > 0 { assert es[..n][..n - 1] == es[..n - 1]; }
    if n < |es| {
      PrefixIsSmaller(es[..|es| - 1], n);
      assert es[..|es| - 1][..n] == es[..n];
    } else {
      assert es[..n] == es;
    }
  }

  // No chain of entries below directory i is longer than k.
  ghost predicate Bounded(d: Disk, i: Inode, k: nat)
    decreases k
  {
    i in d.dirs ==> forall n | n in d.dirs[i] :: k > 0 && Bounded(d, d.dirs[i][n], k - 1)
  }

  // b has no entry a does not have.
  ghost predicate Fewer(a: Disk, b: Disk) {
    forall i: Inode, n: Name | Bound(b, i, n).Some? :: Bound(a, i, n) == Bound(b, i, n)
  }

  lemma {:induction false} BoundedFewer(a: Disk, b: Disk, i: Inode, k: nat)
    requires Bounded(a, i, k) && Fewer(a, b)
    ensures Bounded(b, i, k)
    decreases k
  {
    if i in b.dirs {
      forall n | n in b.dirs[i] ensures k > 0 && Bounded(b, b.dirs[i][n], k - 1) {
        assert Bound(b, i, n) == Some(b.dirs[i][n]) && Bound(a, i, n) == Some(b.dirs[i][n]);
        BoundedFewer(a, b, b.dirs[i][n], k - 1);
      }
    }
  }
}
