/**
 Copying into a managed directory through a private transaction directory
 (pkg/filesecurity/managed_copy_linux.go): stage and sync a copy, publish it under the
 requested name, then clean the transaction up or deliberately keep it.

 Every system call and every revalidation may fail.  `trace` holds each disk state the
 transfer goes through, so a crash may happen at any of them.
 */
module ManagedTransfer {
  import opened Basics
  import opened CrashDisk

  const MAX_DEPTH := 128
  const MAX_ENTRIES := 100_000
  const MAX_INT64 := 0x7fff_ffff_ffff_ffff
  const MAX_CANDIDATES := 10_000
  const ENTRY := "entry"

  datatype Style = Skip | Rename | Replace

  const PLAIN := Mark(false, false)

  function Join(a: Option<Mark>, b: Option<Mark>): Option<Mark> {
    if a.None? then b else if b.None? then a
    else Some(Mark(a.value.changed || b.value.changed, a.value.durabilityUnknown || b.value.durabilityUnknown))
  }

  // managedChangedMutationError
  function MarkChanged(durabilityUnknown: bool, e: Option<Mark>): Option<Mark> {
    if e.None? then None else Some(Mark(true, durabilityUnknown || e.value.durabilityUnknown))
  }

  function Unknown(e: Option<Mark>): bool {
    e.Some? && e.value.durabilityUnknown
  }

  // A request: the disk it starts from, the destination directory, the random name drawn
  // for the transaction directory, and the tree the source holds.
  datatype Job = Job(start: Disk, dest: Inode, txn: Name, tree: Tree)

  // The transaction directory and the staged root are the first inodes handed out.
  function Txn(j: Job): Inode { j.start.next }
  function Staged(j: Job): Inode { j.start.next + 1 }

  ghost predicate Sound(j: Job) {
    && j.dest in j.start.dirs && j.dest < j.start.next && Fresh(j.start)
    && forall n: Name, b: Option<Inode> | Possible(j.start, j.dest, n, b) && b.Some? :: b.value < j.start.next
  }

  // Objects that existed before are never modified.
  ghost predicate Kept(j: Job, d: Disk) {
    && j.dest in d.dirs && j.start.next <= d.next
    && forall i: Inode | i < j.start.next && i != j.dest :: SameNode(j.start, d, i)
  }

  // A crash finds under n what it could have found before, or the complete staged tree; and
  // a replaced object keeps its private name until the new binding is durable.
  ghost predicate NameSafe(j: Job, d: Disk, n: Name) {
    var was, now := Bound(j.start, j.dest, n), Bound(d, j.dest, n);
    && (forall b | Possible(d, j.dest, n, b) ::
          Possible(j.start, j.dest, n, b) || (b == Some(Staged(j)) && Complete(d, Staged(j), j.tree, d.next)))
    && (now == was || (now == Some(Staged(j)) &&
        (was.None? || Bound(d, Txn(j), ENTRY) == was || Durable(d, j.dest, n))))
  }

  ghost predicate Safe(j: Job, d: Disk) {
    Kept(j, d) && forall n | n != j.txn :: NameSafe(j, d, n)
  }

  // Names other than c look as they did.
  ghost predicate SameElsewhere(j: Job, d: Disk, c: Name) {
    forall n | n != j.txn && n != c ::
      && Bound(d, j.dest, n) == Bound(j.start, j.dest, n)
      && (forall b | Possible(d, j.dest, n, b) :: Possible(j.start, j.dest, n, b))
  }

  ghost predicate Unpublished(j: Job, d: Disk) {
    Kept(j, d) && SameElsewhere(j, d, j.txn)
  }

  ghost predicate Published(j: Job, d: Disk, c: Name) {
    && Kept(j, d) && SameElsewhere(j, d, c) && c != j.txn
    && Bound(d, j.dest, c) == Some(Staged(j)) && Complete(d, Staged(j), j.tree, d.next)
    && forall b | Possible(d, j.dest, c, b) :: b == Some(Staged(j)) || Possible(j.start, j.dest, c, b)
  }

  ghost predicate NoLag(d: Disk, dir: Inode) {
    forall n, b :: (dir, n, b) !in d.lag
  }

  // Neither directory the transfer publishes through has an unsynced change.
  ghost predicate Settled(j: Job, d: Disk) {
    NoLag(d, j.dest) && NoLag(d, Txn(j))
  }

  // An unsynced change of the destination or of a directory the transfer made.
  ghost predicate Pending(j: Job, d: Disk) {
    exists e | e in d.lag :: e.0 == j.dest || e.0 >= Txn(j)
  }

  lemma SettledParts(j: Job, d: Disk)
    ensures Settled(j, d) <==> NoLag(d, j.dest) && NoLag(d, Txn(j))
  {
  }

  lemma UnsettledIsPending(j: Job, d: Disk)
    requires !Settled(j, d)
    ensures Pending(j, d)
  {
    if !NoLag(d, j.dest) {
      var n, b :| (j.dest, n, b) in d.lag;
    } else {
      var n, b :| (Txn(j), n, b) in d.lag;
    }
  }

  lemma BindIsPending(j: Job, d: Disk, dir: Inode, n: Name, b: Option<Inode>)
    requires dir in d.dirs && (dir == j.dest || dir >= Txn(j))
    ensures Pending(j, Bind(d, dir, n, b)) && !NoLag(Bind(d, dir, n, b), dir)
  {
    assert (dir, n, Bound(d, dir, n)) in Bind(d, dir, n, b).lag;
  }

  // New directories only name newer objects.
  ghost predicate Ordered(j: Job, d: Disk) {
    forall i: Inode, n: Name | j.start.next <= i && Bound(d, i, n).Some? :: i < Bound(d, i, n).value < d.next
  }

  ghost predicate Staging(j: Job, d: Disk) {
    Unpublished(j, d) && Fresh(d) && Ordered(j, d)
  }

  // ---------- steps that keep a state safe ----------

  lemma UnpublishedIsSafe(j: Job, d: Disk)
    requires Unpublished(j, d)
    ensures Safe(j, d)
  {
    hide Complete;
    forall n | n != j.txn ensures NameSafe(j, d, n) {}
  }

  lemma PublishedIsSafe(j: Job, d: Disk, c: Name)
    requires Published(j, d, c)
    requires Bound(j.start, j.dest, c).None? || Bound(d, Txn(j), ENTRY) == Bound(j.start, j.dest, c) ||
               Durable(d, j.dest, c)
    ensures Safe(j, d)
  {
    hide Complete;
    forall n | n != j.txn ensures NameSafe(j, d, n) {
      if n != c {}
    }
  }

  // A step that touches only new inodes.
  lemma InsideKeepsUnpublished(j: Job, d: Disk, e: Disk)
    requires Sound(j) && Unpublished(j, d) && d.next <= e.next
    requires forall i: Inode | i < j.start.next :: SameNode(d, e, i)
    ensures Unpublished(j, e)
  {
    assert SameNode(d, e, j.dest);
    forall i: Inode | i < j.start.next && i != j.dest ensures SameNode(j.start, e, i) {
      assert SameNode(j.start, d, i) && SameNode(d, e, i);
    }
  }

  ghost predicate Grown(a: Disk, b: Disk, parent: Inode, name: Name) {
    && a.next <= b.next && SameBut(a, b, parent, name)
    && forall i: Inode | i < a.next && i != parent :: SameNode(a, b, i)
  }

  lemma MakeIsGrown(j: Job, d: Disk, parent: Inode, name: Name, dir: bool)
    requires Sound(j) && Staging(j, d) && parent in d.dirs && j.start.next <= parent < d.next
    ensures var e := if dir then MakeDir(d, parent, name) else MakeFile(d, parent, name);
            Grown(d, e, parent, name) && Staging(j, e) && Bound(e, parent, name) == Some(d.next) &&
              e.next == d.next + 1 &&
            (d.next in e.dirs ==> dir && e.dirs[d.next] == map[])
  {
    var e := if dir then MakeDir(d, parent, name) else MakeFile(d, parent, name);
    MakeKeepsOthers(d, parent, name);
    InsideKeepsUnpublished(j, d, e);
    forall i: Inode, n: Name | j.start.next <= i && Bound(e, i, n).Some? ensures i < Bound(e, i, n).value < e.next {
      assert i > d.next || (i == d.next && !dir) ==> Bound(d, i, n) == Bound(e, i, n);
      if i == parent { if n != name { assert Bound(d, i, n) == Bound(e, i, n); } }
      else if i < d.next { assert SameNode(d, e, i); assert Bound(d, i, n) == Bound(e, i, n); }
    }
  }

  // Writing or syncing a new inode.
  lemma TouchKeepsStaging(j: Job, d: Disk, e: Disk, i: Inode)
    requires Sound(j) && Staging(j, d) && j.start.next <= i
    requires e.next == d.next && e.dirs == d.dirs && e.lag <= d.lag
    requires forall k: Inode | k != i :: SameNode(d, e, k)
    ensures Staging(j, e)
  {
    InsideKeepsUnpublished(j, d, e);
    assert forall k: Inode, n: Name :: Bound(d, k, n) == Bound(e, k, n);
  }

  lemma FileKeepsOthers(d: Disk, i: Inode, data: Bytes)
    ensures forall k: Inode | k != i :: SameNode(d, WriteFile(d, i, data), k) && SameNode(d, SyncFile(d, i), k)
  {
  }

  lemma GrownRefl(d: Disk, parent: Inode, name: Name)
    requires parent in d.dirs
    ensures Grown(d, d, parent, name)
  {
  }

  lemma GrownTrans(a: Disk, b: Disk, c: Disk, parent: Inode, name: Name)
    requires Grown(a, b, parent, name) && parent < a.next && b.next <= c.next
    requires forall i: Inode | i < a.next :: SameNode(b, c, i)
    ensures Grown(a, c, parent, name)
  {
    assert SameNode(b, c, parent);
    forall i: Inode | i < a.next && i != parent ensures SameNode(a, c, i) {
      assert SameNode(a, b, i) && SameNode(b, c, i);
    }
  }

  // The first entries of a source directory are staged in directory i.
  ghost predicate PartlyCopied(d: Disk, i: Inode, es: seq<Entry>, k: nat)
    requires k <= |es|
  {
    && i in d.dirs
    && (forall n :: n in d.dirs[i] <==> Named(es[..k], n))
    && (forall m | 0 <= m < k :: ChildComplete(d, i, es[m], d.next))
  }

  lemma OneMoreCopied(d: Disk, e: Disk, i: Inode, es: seq<Entry>, k: nat)
    requires k < |es| && PartlyCopied(d, i, es, k) && i < d.next
    requires Grown(d, e, i, es[k].name) && Bound(d, i, es[k].name).None?
    requires Bound(e, i, es[k].name) == Some(d.next) && Complete(e, d.next, es[k].tree, e.next)
    ensures PartlyCopied(e, i, es, k + 1)
  {
    hide Complete;
    forall m | 0 <= m < k + 1 ensures ChildComplete(e, i, es[m], e.next) {
      if m < k {
        assert ChildComplete(d, i, es[m], d.next);
        assert es[..k][m] == es[m] && Named(es[..k], es[m].name);
        assert Bound(d, i, es[m].name) == Bound(e, i, es[m].name);
        ChildFrame(d, e, i, es[m], d.next, e.next);
      }
    }
    forall n ensures n in e.dirs[i] <==> Named(es[..k + 1], n) {
      NamedOneMore(es, k, n);
      if n != es[k].name { assert Bound(d, i, n) == Bound(e, i, n); }
    }
  }

  lemma NamedOneMore(es: seq<Entry>, k: nat, n: Name)
    requires k < |es|
    ensures Named(es[..k + 1], n) <==> Named(es[..k], n) || es[k].name == n
  {
    assert es[..k + 1][k] == es[k] && forall m | 0 <= m < k :: es[..k + 1][m] == es[..k][m];
  }

  lemma SyncCompletes(d: Disk, i: Inode, es: seq<Entry>)
    requires PartlyCopied(d, i, es, |es|) && i < d.next
    ensures Complete(SyncDir(d, i), i, Dir(es), SyncDir(d, i).next)
  {
    hide Complete;
    var e := SyncDir(d, i);
    SyncKeepsOthers(d, i);
    assert es[..|es|] == es;
    forall m | 0 <= m < |es| ensures ChildComplete(e, i, es[m], d.next) {
      assert ChildComplete(d, i, es[m], d.next);
      ChildFrame(d, e, i, es[m], d.next, d.next);
    }
    CompleteDir(e, i, es, d.next);
  }

  lemma CompleteDir(d: Disk, i: Inode, es: seq<Entry>, hi: Inode)
    requires i < hi && i in d.dirs && (forall n, b :: (i, n, b) !in d.lag)
    requires forall n :: n in d.dirs[i] <==> Named(es, n)
    requires forall k | 0 <= k < |es| :: ChildComplete(d, i, es[k], hi)
    ensures Complete(d, i, Dir(es), hi)
  {
  }

  lemma NothingCopied(j: Job, d: Disk, parent: Inode, name: Name, es: seq<Entry>)
    requires parent in d.dirs && Staging(j, d) && parent < d.next
    ensures PartlyCopied(MakeDir(d, parent, name), d.next, es, 0) && d.next in MakeDir(d, parent, name).dirs
    ensures forall k: nat :: Bounded(MakeDir(d, parent, name), d.next, k)
  {
    MakeKeepsOthers(d, parent, name);
  }

  lemma NothingCounted(es: seq<Entry>, depth: nat)
    ensures CountAll(es[..0]) == 0 && SizeAll(es[..0]) == 0 && AllCopyable(es[..0], depth)
  {
  }

  // What happens below directory i, newer than a, does not show in the directory above.
  lemma GrownUnder(a: Disk, b: Disk, c: Disk, parent: Inode, name: Name, i: Inode, below: Name)
    requires Grown(a, b, parent, name) && Grown(b, c, i, below) && parent < a.next <= i
    ensures Grown(a, c, parent, name) && Bound(b, parent, name) == Bound(c, parent, name) && b.next <= c.next
    ensures i in c.dirs
  {
    assert SameNode(b, c, parent);
    GrownTrans(a, b, c, parent, name);
  }

  lemma SyncStep(j: Job, a: Disk, d: Disk, parent: Inode, name: Name, i: Inode)
    requires Sound(j) && Staging(j, d) && Grown(a, d, parent, name) && j.start.next <= parent < a.next <= i
    ensures var e := SyncDir(d, i);
            Staging(j, e) && Grown(a, e, parent, name) && Safe(j, e) && Bound(e, parent, name) == Bound(d, parent, name)
  {
    hide Staging, Grown, Safe;
    var e := SyncDir(d, i);
    SyncKeepsOthers(d, i);
    TouchKeepsStaging(j, d, e, i);
    StagingIsSafe(j, e);
    GrownTrans(a, d, e, parent, name);
  }

  // ---------- what a copy takes ----------

  // The bytes in the files among the inodes in [lo, hi).
  ghost function Stored(d: Disk, lo: Inode, hi: Inode): nat
    decreases hi
  {
    if hi <= lo then 0
    else Stored(d, lo, hi - 1) + if hi - 1 in d.files && hi - 1 !in d.dirs then |d.files[hi - 1]| else 0
  }

  // From a to b so many inodes were handed out, and so many bytes are in them.
  ghost predicate Took(a: Disk, b: Disk, inodes: nat, bytes: nat) {
    b.next == a.next + inodes && Stored(b, a.next, b.next) == bytes
  }

  lemma {:induction false} StoredSame(d: Disk, e: Disk, lo: Inode, hi: Inode)
    requires forall i: Inode | lo <= i < hi ::
               (i in d.dirs && i in e.dirs) || SameNode(d, e, i)
    ensures Stored(d, lo, hi) == Stored(e, lo, hi)
    decreases hi
  {
    if hi > lo { StoredSame(d, e, lo, hi - 1); }
  }

  lemma {:induction false} StoredSplit(d: Disk, lo: Inode, mid: Inode, hi: Inode)
    requires lo <= mid <= hi
    ensures Stored(d, lo, hi) == Stored(d, lo, mid) + Stored(d, mid, hi)
    decreases hi
  {
    if hi > mid { StoredSplit(d, lo, mid, hi - 1); }
  }

  lemma TookFile(a: Disk, d: Disk, data: Bytes)
    requires d.next == a.next + 1 && a.next in d.files && d.files[a.next] == data && a.next !in d.dirs
    ensures Took(a, d, 1, |data|)
  {
    assert Stored(d, a.next, a.next) == 0;
  }

  lemma TookDir(a: Disk, d: Disk)
    requires d.next == a.next + 1 && a.next in d.dirs
    ensures Took(a, d, 1, 0)
  {
    assert Stored(d, a.next, a.next) == 0;
  }

  lemma TookMore(a: Disk, b: Disk, c: Disk, i: Inode, name: Name, n: nat, bytes: nat, m: nat, more: nat)
    requires Took(a, b, n, bytes) && Grown(b, c, i, name) && Took(b, c, m, more)
    ensures Took(a, c, n + m, bytes + more)
  {
    StoredSame(b, c, a.next, b.next);
    StoredSplit(c, a.next, b.next, c.next);
  }

  lemma TookSynced(a: Disk, b: Disk, dir: Inode, n: nat, bytes: nat)
    requires Took(a, b, n, bytes)
    ensures Took(a, SyncDir(b, dir), n, bytes)
  {
    var c := SyncDir(b, dir);
    assert c.files == b.files && c.dirs == b.dirs;
    StoredOf(b, c, a.next, b.next);
  }

  lemma {:induction false} StoredOf(d: Disk, e: Disk, lo: Inode, hi: Inode)
    requires d.files == e.files && d.dirs == e.dirs
    ensures Stored(d, lo, hi) == Stored(e, lo, hi)
    decreases hi
  {
    if hi > lo { StoredOf(d, e, lo, hi - 1); }
  }

  // ---------- what can be copied ----------

  ghost predicate Distinct(es: seq<Entry>) {
    forall a, b | 0 <= a < b < |es| :: es[a].name != es[b].name
  }

  // A tree copyManagedOpenedToNew has no reason of its own to refuse.
  ghost predicate Copyable(t: Tree, name: Name, depth: nat)
    decreases t
  {
    ValidComponent(name) && depth <= 128 &&
    match t
    case File(_, links) => links == 1
    case Dir(es) => AllCopyable(es, depth + 1)
    case Special => false
  }

  ghost predicate AllCopyable(es: seq<Entry>, depth: nat)
    decreases es
  {
    Distinct(es) && forall k | 0 <= k < |es| :: Copyable(es[k].tree, es[k].name, depth)
  }

  lemma OneMoreCopyable(es: seq<Entry>, k: nat, depth: nat)
    requires k < |es| && AllCopyable(es[..k], depth) && Copyable(es[k].tree, es[k].name, depth)
    requires !Named(es[..k], es[k].name)
    ensures AllCopyable(es[..k + 1], depth)
  {
    hide Copyable;
    var fs := es[..k + 1];
    assert forall m | 0 <= m < k :: fs[m] == es[..k][m];
    forall m | 0 <= m < k + 1 ensures Copyable(fs[m].tree, fs[m].name, depth) {
      if m < k { assert Copyable(es[..k][m].tree, es[..k][m].name, depth); }
    }
  }

  lemma EntryCopyable(es: seq<Entry>, k: nat, depth: nat)
    requires k < |es| && AllCopyable(es, depth)
    ensures Copyable(es[k].tree, es[k].name, depth) && !Named(es[..k], es[k].name)
  {
    hide Copyable;
    assert forall m | 0 <= m < k :: es[..k][m] == es[m];
  }

  // The copy also fits what is left of the budget.
  ghost predicate Fits(t: Tree, name: Name, depth: nat, entries: nat, bytes: nat) {
    Copyable(t, name, depth) && entries + Count(t) <= 100_000 && bytes + Size(t) <= 0x7fff_ffff_ffff_ffff
  }

  ghost predicate AllFit(es: seq<Entry>, depth: nat, entries: nat, bytes: nat) {
    AllCopyable(es, depth) && entries + CountAll(es) <= 100_000 && bytes + SizeAll(es) <= 0x7fff_ffff_ffff_ffff
  }

  // When a directory fits, so does its next entry once the ones before it are copied.
  lemma NextFits(es: seq<Entry>, k: nat, depth: nat, entries: nat, bytes: nat, d: Disk, i: Inode)
    requires k < |es| && AllFit(es, depth, entries, bytes) && PartlyCopied(d, i, es, k)
    ensures Fits(es[k].tree, es[k].name, depth, entries + CountAll(es[..k]), bytes + SizeAll(es[..k]))
    ensures Bound(d, i, es[k].name).None?
  {
    hide Copyable, AllCopyable, Count, CountAll, Size, SizeAll, ChildComplete;
    EntryCopyable(es, k, depth);
    PrefixIsSmaller(es, k + 1);
  }

  lemma CopiedIsCopyable(es: seq<Entry>, k: nat, depth: nat, d: Disk, i: Inode)
    requires k < |es| && AllCopyable(es[..k], depth) && Copyable(es[k].tree, es[k].name, depth)
    requires PartlyCopied(d, i, es, k) && Bound(d, i, es[k].name).None?
    ensures AllCopyable(es[..k + 1], depth)
  {
    hide Copyable, AllCopyable, ChildComplete;
    OneMoreCopyable(es, k, depth);
  }

  // Nothing else moves when a copy is added below directory i, so chains get no longer.
  lemma {:induction false} BoundedFrame(j: Job, d: Disk, e: Disk, c: Inode, k: nat)
    requires Staging(j, d) && j.start.next <= c < d.next && Bounded(d, c, k)
    requires forall i: Inode | c <= i < d.next :: SameNode(d, e, i)
    ensures Bounded(e, c, k)
    decreases k
  {
    hide Unpublished, Fresh;
    assert SameNode(d, e, c);
    if c in e.dirs {
      forall n | n in e.dirs[c] ensures k > 0 && Bounded(e, e.dirs[c][n], k - 1) {
        assert Bound(d, c, n) == Some(e.dirs[c][n]);
        BoundedFrame(j, d, e, e.dirs[c][n], k - 1);
      }
    }
  }

  lemma BoundedGrows(j: Job, d: Disk, e: Disk, i: Inode, name: Name, k: nat)
    requires Staging(j, d) && Grown(d, e, i, name) && j.start.next <= i < d.next && Bounded(d, i, k)
    requires Bound(e, i, name).Some? && Bound(e, i, name) != Bound(d, i, name) ==>
               k > 0 && Bounded(e, Bound(e, i, name).value, k - 1)
    ensures Bounded(e, i, k)
  {
    hide Unpublished, Fresh;
    forall n | n in e.dirs[i] ensures k > 0 && Bounded(e, e.dirs[i][n], k - 1) {
      assert Bound(e, i, n) == Some(e.dirs[i][n]);
      if Bound(d, i, n) == Bound(e, i, n) { BoundedFrame(j, d, e, e.dirs[i][n], k - 1); }
    }
  }

  lemma {:induction false} BoundedSynced(d: Disk, dir: Inode, i: Inode, k: nat)
    requires Bounded(d, i, k)
    ensures Bounded(SyncDir(d, dir), i, k)
  {
    BoundedFewer(d, SyncDir(d, dir), i, k);
  }

  lemma BoundedChild(d: Disk, i: Inode, n: Name, k: nat)
    requires Bounded(d, i, k) && Bound(d, i, n).Some?
    ensures k > 0 && Bounded(d, Bound(d, i, n).value, k - 1)
  {
  }

  lemma BoundedTransaction(j: Job, d: Disk, k: nat)
    requires Txn(j) in d.dirs
    requires (d.dirs[Txn(j)] == map[] || (d.dirs[Txn(j)] == map[ENTRY := Staged(j)] && Bounded(d, Staged(j), k)))
    ensures Bounded(d, Txn(j), k + 1)
  {
  }

  lemma StagingIsSafe(j: Job, d: Disk)
    requires Staging(j, d)
    ensures Safe(j, d)
  {
    UnpublishedIsSafe(j, d);
  }

  lemma FileStep(j: Job, a: Disk, d: Disk, parent: Inode, name: Name, data: Bytes)
    requires Sound(j) && Staging(j, d) && Grown(a, d, parent, name) && j.start.next <= parent < a.next
    requires d.next == a.next + 1
    ensures var e := WriteFile(d, a.next, data); Staging(j, e) && Grown(a, e, parent, name) && Safe(j, e)
    ensures var e := SyncFile(d, a.next); Staging(j, e) && Grown(a, e, parent, name) && Safe(j, e)
  {
    hide Staging, Grown, Safe;
    var w, s := WriteFile(d, a.next, data), SyncFile(d, a.next);
    FileKeepsOthers(d, a.next, data);
    TouchKeepsStaging(j, d, w, a.next);
    TouchKeepsStaging(j, d, s, a.next);
    StagingIsSafe(j, w);
    StagingIsSafe(j, s);
    GrownTrans(a, d, w, parent, name);
    GrownTrans(a, d, s, parent, name);
  }

  lemma SyncedFileIsComplete(d: Disk, i: Inode, data: Bytes, links: nat)
    requires i < d.next && i in d.files && d.files[i] == data && i !in d.dirty && i !in d.dirs
    ensures Complete(d, i, File(data, links), d.next)
  {
  }

  // ---------- syncs, and the name of the transaction directory ----------

  ghost predicate SameAbove(d: Disk, e: Disk, lo: Inode) {
    e.next == d.next && forall i: Inode | lo <= i :: SameNode(d, e, i)
  }

  lemma StagedFrame(j: Job, d: Disk, e: Disk)
    requires SameAbove(d, e, Staged(j)) && Complete(d, Staged(j), j.tree, d.next)
    ensures Complete(e, Staged(j), j.tree, e.next)
  {
    CompleteFrame(d, e, Staged(j), j.tree, d.next, e.next);
  }

  // e differs from d only in that names other than the transaction's may be more durable.
  ghost predicate Settles(j: Job, d: Disk, e: Disk) {
    && j.dest in e.dirs && SameAbove(d, e, Staged(j))
    && (forall i: Inode | i < j.start.next && i != j.dest :: SameNode(d, e, i))
    && Bound(e, Txn(j), ENTRY) == Bound(d, Txn(j), ENTRY)
    && (forall n | n != j.txn :: Bound(e, j.dest, n) == Bound(d, j.dest, n))
    && (forall n, b: Option<Inode> | n != j.txn && Possible(e, j.dest, n, b) :: Possible(d, j.dest, n, b))
  }

  lemma SettlingIsSafe(j: Job, d: Disk, e: Disk)
    requires Settles(j, d, e) && Safe(j, d)
    ensures Safe(j, e)
  {
    hide Complete;
    SettlesKept(j, d, e);
    forall n | n != j.txn ensures NameSafe(j, e, n) {
      assert NameSafe(j, d, n);
      if Complete(d, Staged(j), j.tree, d.next) { StagedFrame(j, d, e); }
    }
  }

  lemma SettlesKept(j: Job, d: Disk, e: Disk)
    requires Settles(j, d, e) && Kept(j, d)
    ensures Kept(j, e)
  {
    forall i: Inode | i < j.start.next && i != j.dest ensures SameNode(j.start, e, i) {
      assert SameNode(j.start, d, i) && SameNode(d, e, i);
    }
  }

  lemma SettlingKeepsPublished(j: Job, d: Disk, e: Disk, c: Name)
    requires Settles(j, d, e) && Published(j, d, c)
    ensures Published(j, e, c)
  {
    hide Complete;
    SettlesKept(j, d, e);
    StagedFrame(j, d, e);
  }

  lemma SettlingKeepsUnpublished(j: Job, d: Disk, e: Disk)
    requires Settles(j, d, e) && Unpublished(j, d)
    ensures Unpublished(j, e)
  {
    SettlesKept(j, d, e);
  }

  lemma SyncSettles(j: Job, d: Disk, dir: Inode)
    requires Sound(j) && j.dest in d.dirs && (dir == j.dest || dir == Txn(j))
    ensures Settles(j, d, SyncDir(d, dir)) && NoLag(SyncDir(d, dir), dir)
    ensures forall i: Inode, n: Name :: Bound(SyncDir(d, dir), i, n) == Bound(d, i, n)
    ensures dir != j.dest ==> (NoLag(SyncDir(d, dir), j.dest) <==> NoLag(d, j.dest))
    ensures dir != Txn(j) ==> (NoLag(SyncDir(d, dir), Txn(j)) <==> NoLag(d, Txn(j)))
  {
    SyncKeepsOthers(d, dir);
    assert SameNode(d, SyncDir(d, dir), if dir == j.dest then Txn(j) else j.dest);
  }

  lemma TxnNameSettles(j: Job, d: Disk, b: Option<Inode>)
    requires Sound(j) && j.dest in d.dirs
    ensures Settles(j, d, Bind(d, j.dest, j.txn, b)) && !NoLag(Bind(d, j.dest, j.txn, b), j.dest)
    ensures NoLag(Bind(d, j.dest, j.txn, b), Txn(j)) <==> NoLag(d, Txn(j))
  {
    BindKeepsOthers(d, j.dest, j.txn, b);
    BindIsPending(j, d, j.dest, j.txn, b);
    assert SameNode(d, Bind(d, j.dest, j.txn, b), Txn(j));
  }

  lemma SettlesRefl(j: Job, d: Disk)
    requires j.dest in d.dirs
    ensures Settles(j, d, d)
  {
  }

  lemma SettlesTrans(j: Job, d: Disk, e: Disk, f: Disk)
    requires Settles(j, d, e) && Settles(j, e, f)
    ensures Settles(j, d, f)
  {
    forall i: Inode | Staged(j) <= i ensures SameNode(d, f, i) { assert SameNode(d, e, i) && SameNode(e, f, i); }
    forall i: Inode | i < j.start.next && i != j.dest
      ensures SameNode(d, f, i)
    {
      assert SameNode(d, e, i) && SameNode(e, f, i);
    }
  }

  lemma SettlesNames(j: Job, d: Disk, e: Disk)
    requires Settles(j, d, e)
    ensures forall n | n != j.txn :: Bound(e, j.dest, n) == Bound(d, j.dest, n)
  {
  }

  lemma TxnIsNotDest(j: Job)
    requires Sound(j)
    ensures Txn(j) != j.dest && Staged(j) != j.dest
  {
  }

  lemma SafeHasDest(j: Job, d: Disk)
    requires Safe(j, d)
    ensures j.dest in d.dirs
  {
  }

  // ---------- removing a staged copy ----------

  lemma ShrunkRefl(d: Disk, dir: Inode, name: Name)
    requires dir in d.dirs
    ensures Shrunk(d, d, dir, name)
  {
  }

  lemma ShrunkDir(a: Disk, d: Disk, dir: Inode, name: Name)
    requires Shrunk(a, d, dir, name)
    ensures dir in d.dirs && d.next == a.next
  {
  }

  lemma ChildIsNewer(j: Job, d: Disk, dir: Inode, name: Name)
    requires Staging(j, d) && j.start.next <= dir && Bound(d, dir, name).Some?
    ensures dir < Bound(d, dir, name).value < d.next
  {
  }

  lemma StagingIsUnpublished(j: Job, d: Disk)
    requires Staging(j, d)
    ensures Unpublished(j, d)
  {
  }

  lemma RemovedInside(j: Job, a: Disk, d: Disk)
    requires Sound(j) && Staging(j, a) && Staging(j, d) && Shrunk(a, d, Txn(j), ENTRY) && NoLag(a, j.dest)
    ensures Unpublished(j, d) && NoLag(d, j.dest) && Txn(j) in d.dirs
    ensures d.lag <= a.lag && NoLag(a, Txn(j)) ==> NoLag(d, Txn(j))
    ensures forall n :: Bound(d, j.dest, n) == Bound(a, j.dest, n)
    ensures Txn(j) in a.dirs && a.dirs[Txn(j)].Keys == {ENTRY} && Bound(d, Txn(j), ENTRY).None? ==>
              d.dirs[Txn(j)] == map[]
  {
    assert SameNode(a, d, j.dest);
    if Txn(j) in a.dirs && a.dirs[Txn(j)].Keys == {ENTRY} && Bound(d, Txn(j), ENTRY).None? {
      ShrunkKeys(a, d, Txn(j), ENTRY);
    }
  }

  ghost predicate Shrunk(a: Disk, b: Disk, dir: Inode, name: Name) {
    && b.next == a.next && dir in b.dirs
    && (forall m | m != name :: Bound(a, dir, m) == Bound(b, dir, m))
    && Fewer(a, b)
    && forall i: Inode | i < dir :: SameNode(a, b, i)
  }

  lemma ShrunkKeys(a: Disk, b: Disk, dir: Inode, name: Name)
    requires Shrunk(a, b, dir, name) && dir in a.dirs && Bound(b, dir, name).None?
    ensures b.dirs[dir].Keys == a.dirs[dir].Keys - {name}
  {
    forall m ensures m in b.dirs[dir] <==> m in a.dirs[dir] && m != name {
      if m != name { assert Bound(a, dir, m) == Bound(b, dir, m); }
    }
  }

  lemma ShrunkBounded(a: Disk, b: Disk, dir: Inode, name: Name, i: Inode, k: nat)
    requires Shrunk(a, b, dir, name) && Bounded(a, i, k)
    ensures Bounded(b, i, k)
  {
    BoundedFewer(a, b, i, k);
  }

  lemma UnlinkStep(j: Job, a: Disk, d: Disk, dir: Inode, name: Name)
    requires Sound(j) && Staging(j, d) && Shrunk(a, d, dir, name) && j.start.next <= dir < d.next
    ensures var e := Bind(d, dir, name, None);
            Staging(j, e) && Safe(j, e) && Shrunk(a, e, dir, name) && Bound(e, dir, name).None?
  {
    var e := Bind(d, dir, name, None);
    BindKeepsOthers(d, dir, name, None);
    InsideKeepsUnpublished(j, d, e);
    UnpublishedIsSafe(j, e);
    forall i: Inode, n: Name | j.start.next <= i && Bound(e, i, n).Some? ensures i < Bound(e, i, n).value < e.next {
      assert Bound(e, i, n) == Bound(d, i, n);
    }
    ShrunkTrans(a, d, e, dir, name);
  }

  lemma ShrunkTrans(a: Disk, d: Disk, e: Disk, dir: Inode, name: Name)
    requires Shrunk(a, d, dir, name) && e.next == d.next && dir in e.dirs && Fewer(d, e)
    requires forall m | m != name :: Bound(d, dir, m) == Bound(e, dir, m)
    requires forall i: Inode | i < dir :: SameNode(d, e, i)
    ensures Shrunk(a, e, dir, name)
  {
    forall i: Inode | i < dir ensures SameNode(a, e, i) { assert SameNode(a, d, i) && SameNode(d, e, i); }
  }

  lemma SyncRemoved(j: Job, a: Disk, d: Disk, dir: Inode, name: Name)
    requires Sound(j) && Staging(j, d) && Shrunk(a, d, dir, name) && j.start.next <= dir
    ensures var e := SyncDir(d, dir);
              Staging(j, e) && Safe(j, e) && Shrunk(a, e, dir, name) && Bound(e, dir, name) == Bound(d, dir, name)
  {
    var e := SyncDir(d, dir);
    SyncKeepsOthers(d, dir);
    TouchKeepsStaging(j, d, e, dir);
    UnpublishedIsSafe(j, e);
    ShrunkTrans(a, d, e, dir, name);
  }

  // Some entry of a is gone in b.
  ghost predicate Lost(a: Disk, b: Disk) {
    exists i: Inode, n: Name :: Bound(a, i, n).Some? && Bound(b, i, n).None?
  }

  lemma LostStays(a: Disk, d: Disk, e: Disk)
    requires Fewer(a, d) && Fewer(d, e)
    ensures Lost(a, e) <==> Lost(a, d) || Lost(d, e)
  {
    if Lost(a, d) {
      var i: Inode, n: Name :| Bound(a, i, n).Some? && Bound(d, i, n).None?;
      assert Bound(e, i, n).None?;
    } else if Lost(d, e) {
      var i: Inode, n: Name :| Bound(d, i, n).Some? && Bound(e, i, n).None?;
      assert Bound(a, i, n).Some?;
    }
  }

  // The unlink of a bound entry, and the sync after it.
  lemma UnlinkLoses(j: Job, a: Disk, d: Disk, dir: Inode, name: Name)
    requires Shrunk(a, d, dir, name) && dir in d.dirs && dir >= Txn(j) && Bound(d, dir, name).Some?
    ensures var e := Bind(d, dir, name, None); Lost(a, e) && Pending(j, e)
    ensures var f := SyncDir(Bind(d, dir, name, None), dir);
            Lost(a, f) && f.lag <= d.lag && NoLag(f, dir) && f.dirs == Bind(d, dir, name, None).dirs
  {
    BindIsPending(j, d, dir, name, None);
    var e, f := Bind(d, dir, name, None), SyncDir(Bind(d, dir, name, None), dir);
    assert Bound(a, dir, name).Some? && Bound(e, dir, name).None? && Bound(f, dir, name).None?;
  }

  lemma ShrunkLoses(a: Disk, d: Disk, e: Disk, dir: Inode, name: Name, c: Inode, n: Name)
    requires Shrunk(a, d, dir, name) && Shrunk(d, e, c, n)
    ensures Lost(a, e) <==> Lost(a, d) || Lost(d, e)
  {
    LostStays(a, d, e);
  }

  lemma NothingLost(d: Disk)
    ensures !Lost(d, d)
  {
  }

  // What is removed below a child does not show in the directory above it.
  lemma ShrunkBelow(a: Disk, d: Disk, e: Disk, dir: Inode, name: Name, c: Inode, n: Name)
    requires Shrunk(a, d, dir, name) && Shrunk(d, e, c, n) && dir < c
    ensures Shrunk(a, e, dir, name) && c in e.dirs && e.next == d.next && Bound(e, dir, name) == Bound(d, dir, name)
  {
    assert SameNode(d, e, dir);
    ShrunkTrans(a, d, e, dir, name);
  }

  // ---------- publication ----------

  // A complete copy, staged as the only entry of the transaction directory.
  ghost predicate Ready(j: Job, d: Disk) {
    && Staging(j, d) && Settled(j, d) && Bound(d, j.dest, j.txn) == Some(Txn(j))
    && Txn(j) in d.dirs && d.dirs[Txn(j)] == map[ENTRY := Staged(j)]
    && Complete(d, Staged(j), j.tree, d.next) && Bounded(d, Txn(j), MAX_DEPTH + 1)
  }

  lemma MovePublishes(j: Job, d: Disk, c: Name)
    requires Sound(j) && Ready(j, d) && Bound(d, j.dest, c).None?
    ensures var e := Move(d, Txn(j), ENTRY, j.dest, c);
            && Published(j, e, c) && Bound(j.start, j.dest, c).None? && Safe(j, e)
            && Txn(j) in e.dirs && e.dirs[Txn(j)] == map[] && !NoLag(e, j.dest) && !NoLag(e, Txn(j))
  {
    hide Complete;
    var m := Bind(d, Txn(j), ENTRY, None);
    var e := Move(d, Txn(j), ENTRY, j.dest, c);
    BindKeepsOthers(d, Txn(j), ENTRY, None);
    BindKeepsOthers(m, j.dest, c, Some(Staged(j)));
    Rebound(j, d, m, e, c);
    PublishedIsSafe(j, e, c);
    BindIsPending(j, d, Txn(j), ENTRY, None);
    BindIsPending(j, m, j.dest, c, Some(Staged(j)));
    assert SameNode(m, e, Txn(j));
  }

  lemma ExchangePublishes(j: Job, d: Disk, c: Name)
    requires Sound(j) && Ready(j, d) && Bound(d, j.dest, c).Some? && c != j.txn
    ensures var e := Exchange(d, Txn(j), ENTRY, j.dest, c);
            && Published(j, e, c) && Safe(j, e)
            && Txn(j) in e.dirs && e.dirs[Txn(j)].Keys == {ENTRY} && !NoLag(e, j.dest) && !NoLag(e, Txn(j))
  {
    hide Complete;
    var was := Bound(d, j.dest, c);
    var m := Bind(d, Txn(j), ENTRY, was);
    var e := Exchange(d, Txn(j), ENTRY, j.dest, c);
    BindKeepsOthers(d, Txn(j), ENTRY, was);
    BindKeepsOthers(m, j.dest, c, Some(Staged(j)));
    Rebound(j, d, m, e, c);
    assert Bound(e, Txn(j), ENTRY) == was;
    PublishedIsSafe(j, e, c);
    BindIsPending(j, d, Txn(j), ENTRY, was);
    BindIsPending(j, m, j.dest, c, Some(Staged(j)));
    assert SameNode(m, e, Txn(j));
  }

  // From d to m only the transaction directory changes, from m to e only dest's entry c.
  lemma Rebound(j: Job, d: Disk, m: Disk, e: Disk, c: Name)
    requires Sound(j) && Unpublished(j, d) && Complete(d, Staged(j), j.tree, d.next) && c != j.txn
    requires d.next == m.next == e.next && j.dest in e.dirs
    requires forall i: Inode | i != Txn(j) :: SameNode(d, m, i)
    requires forall i: Inode | i != j.dest :: SameNode(m, e, i)
    requires SameBut(m, e, j.dest, c) && Bound(e, j.dest, c) == Some(Staged(j))
    requires forall p: Option<Inode> :: Possible(e, j.dest, c, p) <==> p == Some(Staged(j)) || Possible(m, j.dest, c, p)
    ensures Published(j, e, c)
  {
    hide Complete;
    assert SameNode(d, m, j.dest);
    forall i: Inode | i != Txn(j) && i != j.dest ensures SameNode(d, e, i) {
      assert SameNode(d, m, i) && SameNode(m, e, i);
    }
    StagedFrame(j, d, e);
    forall i: Inode | i < j.start.next && i != j.dest ensures SameNode(j.start, e, i) {
      assert SameNode(j.start, d, i) && SameNode(d, e, i);
    }
    forall n | n != j.txn && n != c
      ensures Bound(e, j.dest, n) == Bound(j.start, j.dest, n)
      ensures forall b | Possible(e, j.dest, n, b) :: Possible(j.start, j.dest, n, b)
    {
      assert Bound(m, j.dest, n) == Bound(e, j.dest, n) && Bound(d, j.dest, n) == Bound(m, j.dest, n);
      assert forall b | Possible(e, j.dest, n, b) :: Possible(d, j.dest, n, b);
    }
  }

  // The replaced object loses its private name once nothing but the copy can be found.
  lemma UnlinkOldIsSafe(j: Job, d: Disk, c: Name)
    requires Sound(j) && Published(j, d, c) && NoLag(d, j.dest) && Txn(j) in d.dirs && d.dirs[Txn(j)].Keys == {ENTRY}
    ensures var e := Bind(d, Txn(j), ENTRY, None);
            && Published(j, e, c) && Safe(j, e) && NoLag(e, j.dest) && !NoLag(e, Txn(j))
            && e.dirs[Txn(j)] == map[]
  {
    hide Complete;
    var e := Bind(d, Txn(j), ENTRY, None);
    BindKeepsOthers(d, Txn(j), ENTRY, None);
    assert SameNode(d, e, j.dest);
    StagedFrame(j, d, e);
    forall i: Inode | i < j.start.next && i != j.dest ensures SameNode(j.start, e, i) {
      assert SameNode(j.start, d, i) && SameNode(d, e, i);
    }
    PublishedIsSafe(j, e, c);
    BindIsPending(j, d, Txn(j), ENTRY, None);
  }

  // ---------- crashes ----------

  /** After a crash of a safe state, whichever of its unsynced changes survive, a name that
      was durable shows the very object it showed before or the complete copy; and objects
      that existed before are found exactly as a crash at the start could have left them. */
  lemma CrashFindsOldOrNew(j: Job, d: Disk, e: Disk, n: Name)
    requires Safe(j, d) && CrashesTo(d, e) && n != j.txn
    ensures var found := Bound(e, j.dest, n);
            || Possible(j.start, j.dest, n, found)
            || (found == Some(Staged(j)) && Holds(e, Staged(j), j.tree))
    ensures forall i: Inode, m: Name | i < j.start.next && i != j.dest :: Possible(j.start, i, m, Bound(e, i, m))
    ensures forall i: Inode | i < j.start.next && i != j.dest && i in j.start.files && i !in j.start.dirty ::
              i in e.files && e.files[i] == j.start.files[i]
  {
    hide Complete, Holds;
    assert NameSafe(j, d, n) && Possible(d, j.dest, n, Bound(e, j.dest, n));
    if !Possible(j.start, j.dest, n, Bound(e, j.dest, n)) {
      CompleteSurvives(d, e, Staged(j), j.tree, d.next);
    }
    forall i: Inode, m: Name | i < j.start.next && i != j.dest ensures Possible(j.start, i, m, Bound(e, i, m)) {
      assert SameNode(j.start, d, i) && Possible(d, i, m, Bound(e, i, m));
    }
    forall i: Inode | i < j.start.next && i != j.dest && i in j.start.files && i !in j.start.dirty
      ensures i in e.files && e.files[i] == j.start.files[i]
    {
      assert SameNode(j.start, d, i);
    }
  }

  /** A published copy whose directory has no pending change is what every crash finds. */
  lemma DurablyPublished(j: Job, d: Disk, e: Disk, c: Name)
    requires Published(j, d, c) && NoLag(d, j.dest) && CrashesTo(d, e)
    ensures Bound(e, j.dest, c) == Some(Staged(j)) && Holds(e, Staged(j), j.tree)
    ensures forall n :: Bound(e, j.dest, n) == Bound(d, j.dest, n)
  {
    hide Complete, Holds;
    CompleteSurvives(d, e, Staged(j), j.tree, d.next);
    forall n ensures Bound(e, j.dest, n) == Bound(d, j.dest, n) { assert Possible(d, j.dest, n, Bound(e, j.dest, n)); }
  }

  // One more entry is copied below directory i.
  lemma EntryCopied(start: Disk, before: Disk, after: Disk, i: Inode, es: seq<Entry>, k: nat, depth: nat)
    requires k < |es| && PartlyCopied(before, i, es, k) && i < before.next && AllCopyable(es[..k], depth + 1)
    requires Took(start, before, 1 + CountAll(es[..k]), SizeAll(es[..k]))
    requires Grown(before, after, i, es[k].name) && Bound(before, i, es[k].name).None?
    requires Bound(after, i, es[k].name) == Some(before.next)
    requires Complete(after, before.next, es[k].tree, after.next) && Copyable(es[k].tree, es[k].name, depth + 1)
    requires Took(before, after, Count(es[k].tree), Size(es[k].tree))
    ensures PartlyCopied(after, i, es, k + 1) && AllCopyable(es[..k + 1], depth + 1)
    ensures Took(start, after, 1 + CountAll(es[..k + 1]), SizeAll(es[..k + 1]))
    ensures CountAll(es[..k + 1]) == CountAll(es[..k]) + Count(es[k].tree)
    ensures SizeAll(es[..k + 1]) == SizeAll(es[..k]) + Size(es[k].tree)
    ensures CountAll(es[..k + 1]) <= CountAll(es) && SizeAll(es[..k + 1]) <= SizeAll(es)
  {
    hide Complete, Grown, PartlyCopied, Count, CountAll, Size, SizeAll, Copyable, AllCopyable, Took, Bound;
    OneMoreCopied(before, after, i, es, k);
    CopiedIsCopyable(es, k, depth + 1, before, i);
    PrefixIsSmaller(es, k + 1);
    TookMore(start, before, after, i, es[k].name, 1 + CountAll(es[..k]), SizeAll(es[..k]), Count(es[k].tree),
             Size(es[k].tree));
  }

  // ---------- names tried on conflict ----------

  predicate ValidComponent(n: Name) {
    n != "" && n != "." && n != ".." && |n| <= 255 && '/' !in n && (0 as char) !in n
  }

  // filepath.Ext: the suffix that starts at the last dot.
  function Ext(n: Name): (r: Name)
    ensures |r| <= |n| && n[|n| - |r|..] == r
  {
    if n == "" then "" else if n[|n| - 1] == '.' then "." else
    var e := Ext(n[..|n| - 1]);
    if e == "" then "" else
    assert n[|n| - |e| - 1..] == n[..|n| - 1][|n| - 1 - |e|..] + [n[|n| - 1]];
    e + [n[|n| - 1]]
  }

  function Decimal(k: nat): (r: string)
    ensures r != ""
  {
    if k < 10 then [DIGITS[k]] else Decimal(k / 10) + [DIGITS[k % 10]]
  }

  const DIGITS := "0123456789"

  // managedRenameCandidate
  function Candidate(base: Name, k: nat): Option<Name> {
    var ext := Ext(base);
    var name := if k == 0 then base else base[..|base| - |ext|] + "(" + Decimal(k) + ")" + ext;
    if ValidComponent(name) then Some(name) else None
  }

  lemma {:induction false} DecimalInjective(a: nat, b: nat)
    requires Decimal(a) == Decimal(b)
    ensures a == b
  {
    assert forall i, k | 0 <= i < 10 && 0 <= k < 10 && DIGITS[i] == DIGITS[k] :: i == k;
    var x, y := Decimal(a), Decimal(b);
    assert x[|x| - 1] == DIGITS[a % 10] && y[|y| - 1] == DIGITS[b % 10];
    assert a % 10 == b % 10;
    if a >= 10 && b >= 10 {
      assert x[..|x| - 1] == Decimal(a / 10) && y[..|y| - 1] == Decimal(b / 10);
      DecimalInjective(a / 10, b / 10);
    }
  }

  /** The names tried on conflict are pairwise different. */
  lemma CandidatesDiffer(base: Name, a: nat, b: nat)
    requires a != b && Candidate(base, a).Some? && Candidate(base, b).Some?
    ensures Candidate(base, a) != Candidate(base, b)
  {
    hide *;
    if Candidate(base, a) == Candidate(base, b) {
      CandidateIsLonger(base, a);
      CandidateIsLonger(base, b);
      if a == 0 || b == 0 { assert false; }
      else {
        var stem := base[..|base| - |Ext(base)|];
        CandidateShape(base, a);
        CandidateShape(base, b);
        SameMiddle(stem + "(", Decimal(a), Decimal(b), ")" + Ext(base));
        DecimalInjective(a, b);
      }
    }
  }

  lemma SameMiddle(p: string, a: string, b: string, q: string)
    ensures p + a + q == p + b + q ==> a == b
  {
    var x, y := p + a + q, p + b + q;
    if x == y {
      assert |a| == |b| && a == x[|p|..|p| + |a|] && b == y[|p|..|p| + |b|];
    }
  }

  lemma CandidateShape(base: Name, k: nat)
    requires k > 0 && Candidate(base, k).Some?
    ensures Candidate(base, k).value == base[..|base| - |Ext(base)|] + "(" + Decimal(k) + (")" + Ext(base))
  {
    hide Ext, Decimal, ValidComponent;
  }

  lemma CandidateIsLonger(base: Name, k: nat)
    requires Candidate(base, k).Some?
    ensures if k == 0 then |Candidate(base, k).value| == |base| else |Candidate(base, k).value| > |base|
  {
    hide Ext, Decimal, ValidComponent;
  }

  // The part from the last dot on, if there is a dot.
  ghost predicate CutAt(base: Name, stem: Name, ext: Name) {
    base == stem + ext && if ext == "" then '.' !in stem else ext[0] == '.' && '.' !in ext[1..]
  }

  predicate IsDigits(d: string) {
    forall i | 0 <= i < |d| :: '0' <= d[i] <= '9'
  }

  function Value(d: string): nat
    requires IsDigits(d)
  {
    if d == "" then 0 else 10 * Value(d[..|d| - 1]) + (d[|d| - 1] as int - '0' as int)
  }

  // How k > 0 is written.
  ghost predicate Numeral(d: string, k: nat) {
    d != "" && d[0] != '0' && IsDigits(d) && Value(d) == k
  }

  // The k-th name tried for base.
  ghost predicate Tried(base: Name, k: nat, n: Name) {
    if k == 0 then n == base
    else exists stem, ext, d | CutAt(base, stem, ext) && Numeral(d, k) :: n == stem + "(" + d + ")" + ext
  }

  lemma {:induction false} ExtIsLastPart(n: Name)
    ensures CutAt(n, n[..|n| - |Ext(n)|], Ext(n))
  {
    if n != "" && n[|n| - 1] != '.' {
      var rest, c := n[..|n| - 1], n[|n| - 1];
      var e := Ext(rest);
      ExtIsLastPart(rest);
      assert n == rest + [c];
      if e == "" {
        assert rest[..|rest|] == rest && n[..|n|] == n;
      } else {
        assert Ext(n) == e + [c] && Ext(n)[1..] == e[1..] + [c];
      }
    }
  }

  lemma CutIsUnique(base: Name, stem: Name, ext: Name, stem': Name, ext': Name)
    requires CutAt(base, stem, ext) && CutAt(base, stem', ext')
    ensures stem == stem' && ext == ext'
  {
    LastDot(base, stem, ext);
    LastDot(base, stem', ext');
    assert |stem| == |stem'|;
    assert stem == base[..|stem|] && stem' == base[..|stem'|];
    assert ext == base[|stem|..] && ext' == base[|stem'|..];
  }

  lemma LastDot(base: Name, stem: Name, ext: Name)
    requires CutAt(base, stem, ext)
    ensures if ext == "" then |stem| == |base| && forall k | 0 <= k < |base| :: base[k] != '.'
            else |stem| < |base| && base[|stem|] == '.' && forall k | |stem| < k < |base| :: base[k] != '.'
  {
    if ext == "" {
      assert base == stem;
    } else {
      forall k | |stem| < k < |base| ensures base[k] != '.' { assert base[k] == ext[1..][k - |stem| - 1]; }
    }
  }

  lemma {:induction false} DecimalReads(k: nat)
    ensures IsDigits(Decimal(k)) && Value(Decimal(k)) == k && (k > 0 ==> Decimal(k)[0] != '0')
  {
    assert forall i | 0 <= i < 10 :: '0' <= DIGITS[i] <= '9' && DIGITS[i] as int - '0' as int == i;
    if k < 10 {
      assert Decimal(k)[..0] == "";
    } else {
      DecimalReads(k / 10);
      assert Decimal(k)[..|Decimal(k)| - 1] == Decimal(k / 10);
    }
  }

  lemma {:induction false} NumeralIsDecimal(d: string, k: nat)
    requires Numeral(d, k)
    ensures k > 0 && d == Decimal(k)
    decreases |d|
  {
    assert forall i | 0 <= i < 10 :: '0' <= DIGITS[i] <= '9' && DIGITS[i] as int - '0' as int == i;
    var rest, c := d[..|d| - 1], d[|d| - 1];
    var v := c as int - '0' as int;
    assert d == rest + [c] && DIGITS[v] == c;
    if rest != "" {
      assert rest[0] == d[0] && forall i | 0 <= i < |rest| :: rest[i] == d[i];
      NumeralIsDecimal(rest, Value(rest));
      assert k == 10 * Value(rest) + v;
      assert k >= 10 && k / 10 == Value(rest) && k % 10 == v;
      assert Decimal(k) == Decimal(k / 10) + [DIGITS[k % 10]];
    } else {
      assert Value(rest) == 0 && k == v < 10 && Decimal(k) == [DIGITS[k]];
    }
  }

  /** The names tried are the base and then, with the number before the extension, the retries. */
  lemma CandidateIff(base: Name, k: nat, n: Name)
    ensures Candidate(base, k) == Some(n) <==> Tried(base, k, n) && ValidComponent(n)
    ensures Tried(base, k, n) && Candidate(base, k).Some? ==> Candidate(base, k).value == n
    ensures exists t :: Tried(base, k, t)
  {
    hide Ext, Decimal, ValidComponent, Numeral, CutAt;
    if k == 0 {
      assert Tried(base, 0, base);
    } else {
      var stem, ext, d := base[..|base| - |Ext(base)|], Ext(base), Decimal(k);
      var t := stem + "(" + d + ")" + ext;
      ExtIsLastPart(base);
      DecimalIsNumeral(k);
      assert Tried(base, k, t);
      if Tried(base, k, n) {
        var stem', ext', d' :| CutAt(base, stem', ext') && Numeral(d', k) && n == stem' + "(" + d' + ")" + ext';
        CutIsUnique(base, stem, ext, stem', ext');
        NumeralIsDecimal(d', k);
      }
    }
  }

  lemma DecimalIsNumeral(k: nat)
    requires k > 0
    ensures Numeral(Decimal(k), k)
  {
    DecimalReads(k);
  }

  ghost predicate Taken(j: Job, n: Name) {
    n == j.txn || Bound(j.start, j.dest, n).Some?
  }

  // n is the first of the names tried that was free.
  ghost predicate FirstFree(j: Job, base: Name, n: Name) {
    exists k: nat | k < 10_000 :: Tried(base, k, n) && ValidComponent(n) && AllTaken(j, base, k)
  }

  // The names tried before the k-th are all possible and taken.
  ghost predicate AllTaken(j: Job, base: Name, k: nat) {
    forall m: nat, t | m < k && Tried(base, m, t) :: ValidComponent(t) && Taken(j, t)
  }

  lemma AllTakenIff(j: Job, base: Name, k: nat)
    ensures AllTaken(j, base, k) <==>
              forall m: nat | m < k :: Candidate(base, m).Some? && Taken(j, Candidate(base, m).value)
  {
    hide Tried, Candidate, Taken, ValidComponent;
    forall m: nat, t ensures Candidate(base, m) == Some(t) <==> Tried(base, m, t) && ValidComponent(t)
      ensures Tried(base, m, t) && Candidate(base, m).Some? ==> Candidate(base, m).value == t
    {
      CandidateIff(base, m, t);
    }
    if AllTaken(j, base, k) {
      forall m: nat | m < k ensures Candidate(base, m).Some? && Taken(j, Candidate(base, m).value) {
        CandidateIff(base, m, base);
        var t :| Tried(base, m, t);
        assert Candidate(base, m) == Some(t);
      }
    }
  }

  // Which name a copy may end up under.
  ghost predicate Chosen(j: Job, base: Name, style: Style, n: Name) {
    match style
    case Skip => n == base && !Taken(j, n)
    case Replace => n == base && n != j.txn
    case Rename => FirstFree(j, base, n) && !Taken(j, n)
  }

  lemma ChosenHere(j: Job, base: Name, style: Style, n: Name, k: nat)
    requires Candidate(base, k) == Some(n) && k < (if style == Rename then MAX_CANDIDATES else 1)
    requires forall m: nat | m < k :: Candidate(base, m).Some? && Taken(j, Candidate(base, m).value)
    ensures !Taken(j, n) || (style == Replace && n != j.txn) ==> Chosen(j, base, style, n)
    ensures style != Rename ==> n == base
  {
    hide Ext, Decimal, Tried;
    CandidateIff(base, k, n);
    AllTakenIff(j, base, k);
  }

  // The object at c may be exchanged for the copy: both are directories and it is empty,
  // or neither is one.
  ghost predicate Replaceable(j: Job, c: Name) {
    && c != j.txn && Bound(j.start, j.dest, c).Some?
    && var o := Bound(j.start, j.dest, c).value;
       (o in j.start.dirs <==> j.tree.Dir?) && (o in j.start.dirs ==> j.start.dirs[o] == map[])
  }

  // The conflict style finds a name for the copy, or tells it to stand back.
  ghost predicate Publishable(j: Job, base: Name, style: Style) {
    match style
    case Skip => ValidComponent(base)
    case Replace => ValidComponent(base) && (!Taken(j, base) || Replaceable(j, base))
    case Rename => exists n :: FirstFree(j, base, n) && !Taken(j, n)
  }

  ghost predicate Transferable(j: Job, base: Name, style: Style) {
    Bound(j.start, j.dest, j.txn).None? && Fits(j.tree, ENTRY, 0, 0, 0) && Publishable(j, base, style)
  }

  lemma PublishableHere(j: Job, base: Name, style: Style, n: Name, k: nat)
    requires Candidate(base, k) == Some(n) && k < (if style == Rename then MAX_CANDIDATES else 1)
    requires forall m: nat | m < k :: Candidate(base, m).Some? && Taken(j, Candidate(base, m).value)
    ensures !Taken(j, n) || style == Skip ==> Publishable(j, base, style)
    ensures Taken(j, n) && style == Replace ==> (Publishable(j, base, style) <==> Replaceable(j, n))
  {
    hide Ext, Decimal, ValidComponent, Taken, Replaceable, Tried, AllTaken;
    CandidateIff(base, k, n);
    AllTakenIff(j, base, k);
    if style == Rename && !Taken(j, n) { assert FirstFree(j, base, n); }
  }

  lemma NoNameLeft(j: Job, base: Name, style: Style, k: nat)
    requires forall m: nat | m < k :: Candidate(base, m).Some? && Taken(j, Candidate(base, m).value)
    requires if style == Rename then k == MAX_CANDIDATES || (k < MAX_CANDIDATES && Candidate(base, k).None?)
               else k == 0 && Candidate(base, 0).None?
    ensures !Publishable(j, base, style)
  {
    hide Ext, Decimal, Taken, Replaceable, Tried;
    if style == Rename {
      forall n | FirstFree(j, base, n) ensures Taken(j, n) { NoLaterName(j, base, k, n); }
    }
  }

  lemma NoLaterName(j: Job, base: Name, k: nat, n: Name)
    requires forall m: nat | m < k :: Candidate(base, m).Some? && Taken(j, Candidate(base, m).value)
    requires k == MAX_CANDIDATES || Candidate(base, k).None?
    requires FirstFree(j, base, n)
    ensures Taken(j, n)
  {
    hide Candidate, ValidComponent, Tried, Taken, AllTaken;
    var i: nat :| i < MAX_CANDIDATES && Tried(base, i, n) && ValidComponent(n) && AllTaken(j, base, i);
    CandidateIff(base, i, n);
    AllTakenIff(j, base, i);
    assert i < k;
  }

  lemma ReplaceableHere(j: Job, d: Disk, c: Name)
    requires Sound(j) && Ready(j, d) && Bound(d, j.dest, c).Some?
    ensures var o := Bound(d, j.dest, c).value;
            Replaceable(j, c) <==> (Staged(j) in d.dirs <==> o in d.dirs) && (o in d.dirs ==> d.dirs[o] == map[])
  {
    hide Bounded;
    var o := Bound(d, j.dest, c).value;
    assert Staged(j) in d.dirs <==> j.tree.Dir?;
    if c == j.txn {
      assert ENTRY in d.dirs[Txn(j)];
    } else {
      assert Bound(d, j.dest, c) == Bound(j.start, j.dest, c) &&
        Possible(j.start, j.dest, c, Bound(j.start, j.dest, c));
      if o == j.dest { assert c in d.dirs[o] && c in j.start.dirs[o]; } else { assert SameNode(j.start, d, o); }
    }
  }

  lemma ReadyFacts(j: Job, d: Disk)
    requires Ready(j, d)
    ensures j.dest in d.dirs && Txn(j) in d.dirs && Settled(j, d)
  {
    hide Complete;
  }

  lemma BoundIsTaken(j: Job, d: Disk, n: Name)
    requires Ready(j, d)
    ensures Bound(d, j.dest, n).Some? <==> Taken(j, n)
  {
    hide Complete;
  }

  // The transaction directory exists, durably, and is empty.
  ghost predicate Opened(j: Job, d: Disk) {
    && Staging(j, d) && Settled(j, d) && Bound(d, j.dest, j.txn) == Some(Txn(j)) && Bound(j.start, j.dest, j.txn).None?
    && Txn(j) in d.dirs && d.dirs[Txn(j)] == map[] && d.next == Txn(j) + 1
  }

  lemma OpenedName(j: Job, d: Disk)
    requires Opened(j, d)
    ensures Bound(j.start, j.dest, j.txn).None? && d.next == Staged(j) && Bound(d, Txn(j), ENTRY).None?
  {
  }

  lemma StartIsUnpublished(j: Job)
    requires Sound(j)
    ensures Unpublished(j, j.start) && j.dest in j.start.dirs
  {
  }

  lemma TransactionMade(j: Job)
    requires Sound(j) && Bound(j.start, j.dest, j.txn).None?
    ensures var d := MakeDir(j.start, j.dest, j.txn);
            && Unpublished(j, d) && Safe(j, d)
            && Opened(j, SyncDir(d, j.dest)) && Unpublished(j, SyncDir(d, j.dest)) && Safe(j, SyncDir(d, j.dest))
  {
    hide Complete;
    var d := MakeDir(j.start, j.dest, j.txn);
    var e := SyncDir(d, j.dest);
    MakeKeepsOthers(j.start, j.dest, j.txn);
    UnpublishedIsSafe(j, d);
    SyncSettles(j, d, j.dest);
    SettlingKeepsUnpublished(j, d, e);
    UnpublishedIsSafe(j, e);
  }

  lemma StagedInside(j: Job, d: Disk, e: Disk, created: bool)
    requires Sound(j) && Opened(j, d) && Staging(j, e) && Grown(d, e, Txn(j), ENTRY)
    requires if created then Bound(e, Txn(j), ENTRY) == Some(Staged(j)) else e == d
    ensures (if created then NoLag(e, j.dest) else Settled(j, e)) && Unpublished(j, e) && Txn(j) in e.dirs &&
              Txn(j) < e.next && Bound(j.start, j.dest, j.txn).None?
    ensures forall n :: Bound(e, j.dest, n) == Bound(d, j.dest, n)
    ensures created ==> e.dirs[Txn(j)] == map[ENTRY := Staged(j)] && e.dirs[Txn(j)].Keys == {ENTRY}
    ensures !created ==> e.dirs[Txn(j)] == map[]
  {
    hide Complete;
    assert SameNode(d, e, j.dest);
    if created {
      forall n | n != ENTRY ensures n !in e.dirs[Txn(j)] { assert Bound(d, Txn(j), n) == Bound(e, Txn(j), n); }
      assert e.dirs[Txn(j)].Keys == {ENTRY};
    }
  }

  lemma StagedIsReady(j: Job, d: Disk, e: Disk)
    requires Sound(j) && Opened(j, d) && Staging(j, e) && Grown(d, e, Txn(j), ENTRY)
    requires Bound(e, Txn(j), ENTRY) == Some(Staged(j)) && Complete(e, Staged(j), j.tree, e.next)
    requires Bounded(e, Staged(j), MAX_DEPTH)
    ensures Ready(j, SyncDir(e, Txn(j))) && Safe(j, SyncDir(e, Txn(j)))
  {
    hide Complete;
    StagedInside(j, d, e, true);
    var f := SyncDir(e, Txn(j));
    SyncSettles(j, e, Txn(j));
    SyncKeepsOthers(e, Txn(j));
    StagedFrame(j, e, f);
    TouchKeepsStaging(j, e, f, Txn(j));
    UnpublishedIsSafe(j, f);
    BoundedTransaction(j, e, MAX_DEPTH);
    BoundedSynced(e, Txn(j), Txn(j), MAX_DEPTH + 1);
  }

  lemma UnpublishedNames(j: Job, d: Disk)
    requires Sound(j) && Unpublished(j, d)
    ensures forall n | n != j.txn ::
              Bound(d, j.dest, n) == Bound(j.start, j.dest, n) && Bound(d, j.dest, n) != Some(Staged(j))
  {
    forall n | n != j.txn
      ensures Bound(d, j.dest, n) == Bound(j.start, j.dest, n) && Bound(d, j.dest, n) != Some(Staged(j))
    {
      assert Possible(j.start, j.dest, n, Bound(j.start, j.dest, n));
    }
  }

  lemma PublishedName(j: Job, d: Disk, c: Name)
    requires Published(j, d, c)
    ensures c != j.txn && Bound(d, j.dest, c) == Some(Staged(j))
  {
    hide Complete;
  }

  lemma ReadyToClean(j: Job, d: Disk)
    requires Ready(j, d)
    ensures Staging(j, d) && Unpublished(j, d) && d.dirs[Txn(j)].Keys == {ENTRY} && Txn(j) < d.next
    ensures Bounded(d, Txn(j), MAX_DEPTH + 1)
  {
    hide Complete;
    assert Bound(d, Txn(j), ENTRY).Some?;
  }

  lemma PublishedHasTxn(j: Job, d: Disk, c: Name)
    requires Published(j, d, c)
    ensures Txn(j) < d.next
  {
  }

  // A nonempty directory is never replaced, so the transaction's own name is not.
  lemma NotTheTransaction(j: Job, d: Disk, c: Name)
    requires Ready(j, d) && Bound(d, j.dest, c).Some?
    requires var o := Bound(d, j.dest, c).value; o in d.dirs ==> d.dirs[o] == map[]
    ensures c != j.txn
  {
    hide Complete;
    assert ENTRY in d.dirs[Txn(j)];
  }

  class Transfer {
    const job: Job
    const allowlisted: bool
    // no call fails, except perhaps the final close
    const reliable: bool
    const closes: bool
    var disk: Disk
    ghost var trace: seq<Disk>
    var entries: nat
    var bytes: nat
    // How many calls and revalidations have failed.
    var faults: nat
    // Whether the removal under way has unlinked anything.
    var unlinked: bool

    ghost predicate Valid()
      reads this
    {
      && Sound(job) && |trace| > 0 && trace[|trace| - 1] == disk
      && (forall i | 0 <= i < |trace| :: Safe(job, trace[i]))
      && entries <= MAX_ENTRIES && bytes <= MAX_INT64
    }

    constructor (start: Disk, dest: Inode, txn: Name, tree: Tree, allowlisted: bool, reliable: bool, closes: bool)
      requires Sound(Job(start, dest, txn, tree))
      ensures Valid() && disk == start && trace == [start] && entries == 0 && bytes == 0 && faults == 0
      ensures job == Job(start, dest, txn, tree) && this.allowlisted == allowlisted
      ensures this.reliable == reliable && this.closes == closes
    {
      this.reliable, this.closes := reliable, closes;
      job, this.allowlisted, disk, trace, entries, bytes, faults, unlinked :=
        Job(start, dest, txn, tree), allowlisted, start, [start], 0, 0, 0, false;
      new;
      assert Unpublished(job, start);
      UnpublishedIsSafe(job, start);
    }

    // A system call takes effect or fails without effect.
    method Try(d: Disk) returns (ok: bool)
      requires Valid() && Safe(job, d)
      modifies this`disk, this`trace, this`faults
      ensures Valid() && disk == if ok then d else old(disk)
      ensures faults == (if ok then old(faults) else old(faults) + 1) && (reliable ==> ok)
    {
      hide Safe, Sound;
      ok := *;
      if reliable { ok := true; }
      if ok {
        disk, trace := d, trace + [d];
      } else {
        faults := faults + 1;
      }
    }

    // A revalidation, a close or a read of the source fails for any reason.
    method Check() returns (ok: bool)
      modifies this`faults
      ensures faults == (if ok then old(faults) else old(faults) + 1) && (reliable ==> ok)
    {
      ok := *;
      if reliable { ok := true; }
      if !ok { faults := faults + 1; }
    }

    // The final close of the transaction directory, which `faults` does not count.
    method CloseTransaction() returns (closed: bool)
      ensures reliable ==> closed == closes
    {
      closed := *;
      if reliable { closed := closes; }
    }

    // copyManagedRegular, into a file created at parent/name
    method CopyFile(data: Bytes, links: nat, parent: Inode, name: Name) returns (created: bool, ok: bool)
      requires Valid() && Staging(job, disk) && parent in disk.dirs && job.start.next <= parent < disk.next
      modifies this`disk, this`trace, this`faults, this`bytes
      ensures Valid() && Staging(job, disk) && Grown(old(disk), disk, parent, name)
      ensures !created ==> disk == old(disk)
      ensures created ==> Bound(old(disk), parent, name).None? && Bound(disk, parent, name) == Some(old(disk).next)
      ensures created ==> old(disk).next !in disk.dirs
      ensures ok ==> created && Complete(disk, old(disk).next, File(data, links), disk.next)
      ensures faults >= old(faults) && (reliable ==> faults == old(faults)) && bytes >= old(bytes)
      ensures ok ==> links == 1 && bytes == old(bytes) + |data| && faults == old(faults)
      ensures ok ==> Took(old(disk), disk, 1, |data|)
      ensures faults == old(faults) && links == 1 ==>
                Bound(old(disk), parent, name).None? && old(bytes) + |data| <= MAX_INT64 ==> ok
    {
      hide Complete, Staging, Grown, Safe, Sound, MakeFile, Took;
      created, ok := false, false;
      GrownRefl(disk, parent, name);
      if links != 1 || Bound(disk, parent, name).Some? { return; }
      var i := disk.next;
      var d := MakeFile(disk, parent, name);
      MakeIsGrown(job, disk, parent, name, false);
      StagingIsSafe(job, d);
      created := Try(d);
      if !created { return; }
      if |data| > MAX_INT64 - bytes { return; }
      var partial: Bytes := *;
      var whole := Check();
      FileStep(job, old(disk), disk, parent, name, if whole then data else partial);
      var written := Try(WriteFile(disk, i, if whole then data else partial));
      if !written || !whole { return; }
      var same := Check();
      if !same { return; }
      bytes := bytes + |data|;
      FileStep(job, old(disk), disk, parent, name, data);
      ok := Try(SyncFile(disk, i));
      if ok {
        SyncedFileIsComplete(disk, i, data, links);
        TookFile(old(disk), disk, data);
      }
    }

    // copyManagedOpenedToNew
    method CopyTree(t: Tree, parent: Inode, name: Name, depth: nat) returns (created: bool, ok: bool)
      requires Valid() && Staging(job, disk) && parent in disk.dirs && job.start.next <= parent < disk.next
      modifies this`disk, this`trace, this`faults, this`bytes, this`entries
      ensures Valid() && Staging(job, disk) && Grown(old(disk), disk, parent, name)
      ensures !created ==> disk == old(disk)
      ensures created ==> Bound(old(disk), parent, name).None? && Bound(disk, parent, name) == Some(old(disk).next)
      ensures ok ==> created && Complete(disk, old(disk).next, t, disk.next)
      ensures created ==> depth <= MAX_DEPTH && Bounded(disk, old(disk).next, MAX_DEPTH - depth)
      ensures faults >= old(faults) && (reliable ==> faults == old(faults))
      ensures ok ==> entries == old(entries) + Count(t) && bytes == old(bytes) + Size(t) && faults == old(faults)
      ensures ok ==> Took(old(disk), disk, Count(t), Size(t))
      ensures ok ==> Copyable(t, name, depth)
      ensures faults == old(faults) && Bound(old(disk), parent, name).None? ==>
                Fits(t, name, depth, old(entries), old(bytes)) ==> ok
      decreases t, 1
    {
      hide Complete, Staging, Grown, Safe, Sound, Took;
      created, ok := false, false;
      GrownRefl(disk, parent, name);
      if !ValidComponent(name) || depth > MAX_DEPTH || entries >= MAX_ENTRIES { return; }
      entries := entries + 1;
      match t
      case File(data, links) => created, ok := CopyFile(data, links, parent, name);
      case Dir(es) => created, ok := CopyDir(es, parent, name, depth);
      case Special =>
    }

    // copyManagedDirectory, into a directory created at parent/name
    method CopyDir(es: seq<Entry>, parent: Inode, name: Name, depth: nat) returns (created: bool, ok: bool)
      requires Valid() && Staging(job, disk) && parent in disk.dirs && job.start.next <= parent < disk.next
      requires depth <= MAX_DEPTH
      modifies this`disk, this`trace, this`faults, this`bytes, this`entries
      ensures Valid() && Staging(job, disk) && Grown(old(disk), disk, parent, name)
      ensures !created ==> disk == old(disk)
      ensures created ==> Bound(old(disk), parent, name).None? && Bound(disk, parent, name) == Some(old(disk).next)
      ensures ok ==> created && Complete(disk, old(disk).next, Dir(es), disk.next)
      ensures created ==> Bounded(disk, old(disk).next, MAX_DEPTH - depth)
      ensures faults >= old(faults) && (reliable ==> faults == old(faults))
      ensures ok ==>
                entries == old(entries) + CountAll(es) && bytes == old(bytes) + SizeAll(es) && faults == old(faults)
      ensures ok ==> AllCopyable(es, depth + 1) && Took(old(disk), disk, 1 + CountAll(es), SizeAll(es))
      ensures faults == old(faults) && Bound(old(disk), parent, name).None? ==>
                AllFit(es, depth + 1, old(entries), old(bytes)) ==> ok
      decreases es, 1
    {
      hide Complete, Staging, Grown, Safe, Sound, MakeDir, PartlyCopied, SyncDir, Bounded, Count, CountAll, Size;
      hide SizeAll, Copyable, AllCopyable, Fits, AllFit, Took;
      created, ok := false, false;
      GrownRefl(disk, parent, name);
      if Bound(disk, parent, name).Some? { return; }
      var i := disk.next;
      MakeIsGrown(job, disk, parent, name, true);
      NothingCopied(job, disk, parent, name, es);
      StagingIsSafe(job, MakeDir(disk, parent, name));
      created := Try(MakeDir(disk, parent, name));
      if !created { return; }
      TookDir(old(disk), disk);
      var usable := Check();
      if !usable { return; }
      var all := CopyEntries(es, i, depth, old(disk), parent, name);
      if !all { return; }
      var same := Check();
      if !same { return; }
      SyncStep(job, old(disk), disk, parent, name, i);
      TookSynced(old(disk), disk, i, 1 + CountAll(es), SizeAll(es));
      SyncCompletes(disk, i, es);
      BoundedSynced(disk, i, i, MAX_DEPTH - depth);
      ok := Try(SyncDir(disk, i));
    }

    // The loop of copyManagedDirectory over the entries, below the new directory i, which was
    // created at parent/name since `start`.
    method CopyEntries(es: seq<Entry>, i: Inode, depth: nat, ghost start: Disk, ghost parent: Inode, ghost name: Name)
      returns (ok: bool)
      requires Valid() && Staging(job, disk) && Grown(start, disk, parent, name) && parent < start.next <= i < disk.next
      requires job.start.next <= i && i in disk.dirs && Bound(disk, parent, name) == Some(i)
      requires Took(start, disk, 1, 0)
      requires depth <= MAX_DEPTH && PartlyCopied(disk, i, es, 0) && Bounded(disk, i, MAX_DEPTH - depth)
      modifies this`disk, this`trace, this`faults, this`bytes, this`entries
      ensures Valid() && Staging(job, disk) && Grown(start, disk, parent, name) && i < disk.next && i in disk.dirs
      ensures Bound(disk, parent, name) == Some(i) && Bounded(disk, i, MAX_DEPTH - depth)
      ensures ok ==> PartlyCopied(disk, i, es, |es|) && AllCopyable(es, depth + 1)
      ensures ok ==> Took(start, disk, 1 + CountAll(es), SizeAll(es))
      ensures ok ==>
                entries == old(entries) + CountAll(es) && bytes == old(bytes) + SizeAll(es) && faults == old(faults)
      ensures faults >= old(faults) && (reliable ==> faults == old(faults))
      ensures faults == old(faults) && AllFit(es, depth + 1, old(entries), old(bytes)) ==> ok
      decreases es, 0
    {
      hide Complete, Staging, Grown, Safe, Sound, PartlyCopied, Bounded, Count, CountAll, Size;
      hide SizeAll, Copyable, AllCopyable, Fits, AllFit, Took;
      ok := false;
      NothingCounted(es, depth + 1);
      for k := 0 to |es|
        invariant Valid() && Staging(job, disk) && Grown(start, disk, parent, name) && i < disk.next
        invariant i in disk.dirs
        invariant Bound(disk, parent, name) == Some(i)
        invariant PartlyCopied(disk, i, es, k)
        invariant entries == old(entries) + CountAll(es[..k])
        invariant bytes == old(bytes) + SizeAll(es[..k]) && faults == old(faults)
        invariant Took(start, disk, 1 + CountAll(es[..k]), SizeAll(es[..k]))
        invariant AllCopyable(es[..k], depth + 1) && Bounded(disk, i, MAX_DEPTH - depth)
      {
        var readable := Check();
        if !readable { return; }
        ghost var before := disk;
        if AllFit(es, depth + 1, old(entries), old(bytes)) {
          NextFits(es, k, depth + 1, old(entries), old(bytes), disk, i);
        }
        var _, copied := CopyTree(es[k].tree, i, es[k].name, depth + 1);
        GrownUnder(start, before, disk, parent, name, i, es[k].name);
        BoundedGrows(job, before, disk, i, es[k].name, MAX_DEPTH - depth);
        var closed := Check();
        if !copied || !closed { return; }
        EntryCopied(start, before, disk, i, es, k, depth);
      }
      assert es[..|es|] == es;
      ok := true;
    }

    // removeManagedEntryAtPrevalidated, on a copy that was never published
    method RemoveEntry(dir: Inode, name: Name, depth: nat) returns (err: Option<Mark>)
      requires Valid() && Staging(job, disk) && dir in disk.dirs && job.start.next <= dir < disk.next
      modifies this`disk, this`trace, this`faults, this`unlinked
      ensures Valid() && Staging(job, disk) && Shrunk(old(disk), disk, dir, name)
      ensures err.None? ==> Bound(disk, dir, name).None?
      ensures unlinked == (old(unlinked) || Lost(old(disk), disk)) && (err.Some? ==> err.value.changed == unlinked)
      ensures if Unknown(err) then Pending(job, disk) else disk.lag <= old(disk).lag
      ensures err.None? && Bound(old(disk), dir, name).Some? ==> NoLag(disk, dir)
      ensures faults >= old(faults) && (reliable ==> faults == old(faults)) && (err.None? ==> faults == old(faults))
      ensures faults == old(faults) && depth <= MAX_DEPTH && Bounded(old(disk), dir, MAX_DEPTH + 1 - depth) ==>
                err.None?
      decreases MAX_DEPTH + 1 - depth, 1
    {
      hide Complete, Staging, Shrunk, Safe, Sound, Bounded, Lost, Pending, NoLag, Bind, SyncDir;
      ShrunkRefl(disk, dir, name);
      NothingLost(disk);
      var known := Check();
      if depth > MAX_DEPTH || !known { return Some(Mark(unlinked, false)); }
      if Bound(disk, dir, name).None? { return None; }
      var c := Bound(disk, dir, name).value;
      ChildIsNewer(job, disk, dir, name);
      ghost var shallow := Bounded(disk, dir, MAX_DEPTH + 1 - depth);
      if shallow { BoundedChild(disk, dir, name, MAX_DEPTH + 1 - depth); }
      if c in disk.dirs {
        err := RemoveChildren(dir, name, c, depth);
        if err.Some? { return; }
      }
      ShrunkDir(old(disk), disk, dir, name);
      err := UnlinkEntry(old(disk), dir, name);
    }

    // The unlink of an entry that is a file or an empty directory, and the sync after it.
    method UnlinkEntry(ghost was: Disk, dir: Inode, name: Name) returns (err: Option<Mark>)
      requires Valid() && Staging(job, disk) && dir in disk.dirs && job.start.next <= dir < disk.next
      requires Bound(disk, dir, name).Some?
      requires Shrunk(was, disk, dir, name)
      modifies this`disk, this`trace, this`faults, this`unlinked
      ensures Valid() && Staging(job, disk) && Shrunk(was, disk, dir, name)
      ensures if unlinked == old(unlinked) && disk == old(disk) then err == Some(Mark(unlinked, false))
              else unlinked && Lost(was, disk)
      ensures err.Some? ==> err.value.changed == unlinked
      ensures if Unknown(err) then Pending(job, disk) else disk.lag <= old(disk).lag
      ensures err.None? ==> NoLag(disk, dir) && Bound(disk, dir, name).None? && Lost(was, disk) && unlinked
      ensures faults >= old(faults) && (reliable ==> faults == old(faults)) && (err.None? <==> faults == old(faults))
    {
      hide Complete, Staging, Shrunk, Safe, Sound, Lost, Pending, NoLag, Bind, SyncDir;
      UnlinkStep(job, was, disk, dir, name);
      UnlinkLoses(job, was, disk, dir, name);
      var gone := Try(Bind(disk, dir, name, None));
      if !gone { return Some(Mark(unlinked, false)); }
      unlinked := true;
      SyncRemoved(job, was, disk, dir, name);
      var synced := Try(SyncDir(disk, dir));
      err := if synced then None else Some(Mark(true, true));
    }

    // The loop over the entries of directory c, which dir knows as name, and the check that
    // none is left.
    method RemoveChildren(dir: Inode, name: Name, c: Inode, depth: nat) returns (err: Option<Mark>)
      requires Valid() && Staging(job, disk) && job.start.next <= dir < c < disk.next && dir in disk.dirs
      requires c in disk.dirs
      requires Bound(disk, dir, name) == Some(c) && depth <= MAX_DEPTH
      modifies this`disk, this`trace, this`faults, this`unlinked
      ensures Valid() && Staging(job, disk) && Shrunk(old(disk), disk, dir, name) && Bound(disk, dir, name) == Some(c)
      ensures unlinked == (old(unlinked) || Lost(old(disk), disk)) && (err.Some? ==> err.value.changed == unlinked)
      ensures if Unknown(err) then Pending(job, disk) else disk.lag <= old(disk).lag
      ensures err.None? ==> c in disk.dirs && disk.dirs[c] == map[]
      ensures faults >= old(faults) && (reliable ==> faults == old(faults)) && (err.None? ==> faults == old(faults))
      ensures faults == old(faults) && Bounded(old(disk), c, MAX_DEPTH - depth) ==> err.None?
      decreases MAX_DEPTH + 1 - depth, 0
    {
      hide Complete, Staging, Shrunk, Safe, Sound, Bounded, Lost, Pending, NoLag;
      ShrunkRefl(disk, dir, name);
      NothingLost(disk);
      err := None;
      ghost var shallow := Bounded(disk, c, MAX_DEPTH - depth);
      var names := disk.dirs[c].Keys;
      while names != {}
        invariant Valid() && Staging(job, disk) && Shrunk(old(disk), disk, dir, name) && c in disk.dirs
        invariant disk.next == old(disk).next
        invariant Bound(disk, dir, name) == Some(c) && disk.lag <= old(disk).lag && err.None?
        invariant unlinked == (old(unlinked) || Lost(old(disk), disk))
        invariant faults == old(faults) && names == disk.dirs[c].Keys
        invariant (shallow ==> Bounded(disk, c, MAX_DEPTH - depth))
      {
        var n :| n in names;
        names := names - {n};
        ghost var before := disk;
        if shallow { BoundedChild(disk, c, n, MAX_DEPTH - depth); }
        err := RemoveEntry(c, n, depth + 1);
        ShrunkBelow(old(disk), before, disk, dir, name, c, n);
        ShrunkLoses(old(disk), before, disk, dir, name, c, n);
        if err.Some? { return; }
        ShrunkKeys(before, disk, c, n);
        if shallow { ShrunkBounded(before, disk, c, n, c, MAX_DEPTH - depth); }
      }
    }

    // cleanupManagedTransferTransaction.  When it finds an entry, that entry is a copy whose
    // publication never happened.
    method Cleanup(entryPresent: bool) returns (err: Option<Mark>)
      requires Valid() && Txn(job) in disk.dirs && Txn(job) < disk.next && NoLag(disk, job.dest)
      requires entryPresent ==> Staging(job, disk) && disk.dirs[Txn(job)].Keys == {ENTRY}
      requires !entryPresent ==> disk.dirs[Txn(job)] == map[]
      modifies this`disk, this`trace, this`faults, this`unlinked
      ensures Valid() && forall n | n != job.txn :: Bound(disk, job.dest, n) == Bound(old(disk), job.dest, n)
      ensures entryPresent ==> Unpublished(job, disk)
      ensures !entryPresent ==> Settles(job, old(disk), disk)
      ensures err.None? ==> Bound(disk, job.dest, job.txn).None?
      ensures !Unknown(err) ==> NoLag(disk, job.dest)
      ensures Unknown(err) ==> Pending(job, disk)
      ensures (NoLag(old(disk), Txn(job)) && !Unknown(err)) || (entryPresent && err.None?) ==> NoLag(disk, Txn(job))
      ensures faults >= old(faults) && (reliable ==> faults == old(faults)) && (err.None? ==> faults == old(faults))
      ensures faults == old(faults) && (entryPresent ==> Bounded(old(disk), Txn(job), MAX_DEPTH + 1)) ==> err.None?
    {
      hide Complete, Staging, Shrunk, Safe, Sound, Settles, NoLag, Kept, Bounded, Pending, Lost;
      SafeHasDest(job, disk);
      SettlesRefl(job, disk);
      if entryPresent { StagingIsUnpublished(job, disk); }
      err := Some(PLAIN);
      var valid := Check();
      if !valid { return; }
      if entryPresent {
        ghost var before := disk;
        unlinked := false;
        err := RemoveEntry(Txn(job), ENTRY, 0);
        RemovedInside(job, before, disk);
        if err.Some? { return; }
        err := Some(PLAIN);
      }
      var again := Check();
      if !again || disk.dirs[Txn(job)] != map[] { return; }
      ghost var emptied := disk;
      err := DropTransaction();
      SettlesNames(job, emptied, disk);
      if entryPresent { SettlingKeepsUnpublished(job, emptied, disk); }
    }

    // rmdir of the empty transaction directory, and the sync that makes it stick
    method DropTransaction() returns (err: Option<Mark>)
      requires Valid() && NoLag(disk, job.dest)
      modifies this`disk, this`trace, this`faults
      ensures Valid() && Settles(job, old(disk), disk)
      ensures err.None? ==> Bound(disk, job.dest, job.txn).None?
      ensures !Unknown(err) ==> NoLag(disk, job.dest)
      ensures err.Some? ==> err == if NoLag(disk, job.dest) then Some(PLAIN) else Some(Mark(true, true))
      ensures Unknown(err) ==> Pending(job, disk)
      ensures NoLag(disk, Txn(job)) <==> NoLag(old(disk), Txn(job))
      ensures faults >= old(faults) && (reliable ==> faults == old(faults)) && (err.None? <==> faults == old(faults))
    {
      hide Complete, Safe, Sound, Settles, NoLag, Kept, Bind, SyncDir, Pending;
      SafeHasDest(job, disk);
      SettlesRefl(job, disk);
      err := Some(PLAIN);
      TxnIsNotDest(job);
      TxnNameSettles(job, disk, None);
      BindIsPending(job, disk, job.dest, job.txn, None);
      SettlingIsSafe(job, disk, Bind(disk, job.dest, job.txn, None));
      var removed := Try(Bind(disk, job.dest, job.txn, None));
      if !removed { return; }
      err := Some(Mark(true, true));
      var gone := Check();
      if !gone { return; }
      SyncSettles(job, disk, job.dest);
      SettlingIsSafe(job, disk, SyncDir(disk, job.dest));
      SettlesTrans(job, old(disk), disk, SyncDir(disk, job.dest));
      var synced := Try(SyncDir(disk, job.dest));
      if synced { err := None; }
    }

    // Revalidate the published copy and make both directories durable.
    method Settle(c: Name) returns (err: Option<Mark>)
      requires Valid() && Published(job, disk, c) && Txn(job) in disk.dirs && !NoLag(disk, job.dest)
      requires !NoLag(disk, Txn(job))
      modifies this`disk, this`trace, this`faults
      ensures Valid() && Published(job, disk, c) && disk.dirs == old(disk).dirs
      ensures err.Some? ==> err.value.changed
      ensures Unknown(err) <==> !Settled(job, disk)
      ensures faults >= old(faults) && (reliable ==> faults == old(faults)) && (err.None? <==> faults == old(faults))
    {
      hide Complete, Safe, Sound, Settles, NoLag, Kept, Published;
      TxnIsNotDest(job);
      err := Some(Mark(true, true));
      var identified := Check();
      if !identified { return; }
      SafeHasDest(job, disk);
      SyncSettles(job, disk, job.dest);
      SettlingIsSafe(job, disk, SyncDir(disk, job.dest));
      SettlingKeepsPublished(job, disk, SyncDir(disk, job.dest), c);
      var ok := Try(SyncDir(disk, job.dest));
      if !ok { return; }
      SafeHasDest(job, disk);
      SyncSettles(job, disk, Txn(job));
      SettlingIsSafe(job, disk, SyncDir(disk, Txn(job)));
      SettlingKeepsPublished(job, disk, SyncDir(disk, Txn(job)), c);
      ok := Try(SyncDir(disk, Txn(job)));
      if !ok { return; }
      err := Some(Mark(true, false));
      identified := Check();
      if identified { err := None; }
    }

    // The ManagedConflictReplace branch: exchange, settle, then drop the old object.
    method ReplaceAt(c: Name) returns (changed: bool, cleanupAllowed: bool, entryPresent: bool, err: Option<Mark>)
      requires Valid() && Ready(job, disk) && Bound(disk, job.dest, c).Some?
      modifies this`disk, this`trace, this`faults
      ensures Valid() && (if changed then Published(job, disk, c) && Txn(job) in disk.dirs else disk == old(disk))
      ensures changed && err.Some? ==> err.value.changed
      ensures cleanupAllowed ==> entryPresent == !changed
      ensures !entryPresent ==> changed && disk.dirs[Txn(job)] == map[]
      ensures err.None? ==> changed && cleanupAllowed
      ensures cleanupAllowed ==> !Unknown(err)
      ensures Unknown(err) <==> !Settled(job, disk)
      ensures faults >= old(faults) && (reliable ==> faults == old(faults)) && (err.None? ==> faults == old(faults))
      ensures faults == old(faults) ==>
                cleanupAllowed && changed == Replaceable(job, c) && err == if changed then None else Some(PLAIN)
    {
      hide Complete, Safe, Sound, Settles, NoLag, Kept, Published, Staging, Exchange, Bind, SyncDir, Replaceable;
      hide Bounded;
      changed, cleanupAllowed, entryPresent, err := false, true, true, Some(PLAIN);
      var o := Bound(disk, job.dest, c).value;
      ReplaceableHere(job, disk, c);
      var eligible := Check();
      if !eligible || (Staged(job) in disk.dirs) != (o in disk.dirs) || (o in disk.dirs && disk.dirs[o] != map[]) {
        return;
      }
      NotTheTransaction(job, disk, c);
      cleanupAllowed := false;
      var stagingSame := Check();
      if !stagingSame { return; }
      cleanupAllowed := true;
      var targetSame := Check();
      if !targetSame { return; }
      cleanupAllowed := false;
      SafeHasDest(job, disk);
      TxnIsNotDest(job);
      ExchangePublishes(job, disk, c);
      changed := Try(Exchange(disk, Txn(job), ENTRY, job.dest, c));
      if !changed { return; }
      err := Settle(c);
      if err.Some? { return; }
      err := Some(Mark(true, false));
      var proceed := Check();
      if !proceed { return; }
      UnlinkOldIsSafe(job, disk, c);
      var unlinked := Try(Bind(disk, Txn(job), ENTRY, None));
      if !unlinked { return; }
      entryPresent := false;
      err := SettleRemoval(c);
      cleanupAllowed := err.None?;
    }

    method SettleRemoval(c: Name) returns (err: Option<Mark>)
      requires Valid() && Published(job, disk, c) && Txn(job) in disk.dirs && NoLag(disk, job.dest)
      requires !NoLag(disk, Txn(job))
      modifies this`disk, this`trace, this`faults
      ensures Valid() && Published(job, disk, c) && disk.dirs == old(disk).dirs && NoLag(disk, job.dest)
      ensures err.Some? ==> err.value.changed
      ensures Unknown(err) <==> !Settled(job, disk)
      ensures faults >= old(faults) && (reliable ==> faults == old(faults)) && (err.None? <==> faults == old(faults))
    {
      hide Complete, Safe, Sound, Settles, NoLag, Kept, Published;
      SafeHasDest(job, disk);
      TxnIsNotDest(job);
      SyncSettles(job, disk, Txn(job));
      SettlingIsSafe(job, disk, SyncDir(disk, Txn(job)));
      SettlingKeepsPublished(job, disk, SyncDir(disk, Txn(job)), c);
      var synced := Try(SyncDir(disk, Txn(job)));
      var removed := Check();
      err := if !synced then Some(Mark(true, true)) else if !removed then Some(Mark(true, false)) else None;
    }

    // publishManagedTransaction
    method Publish(base: Name, style: Style)
      returns (changed: bool, cleanupAllowed: bool, entryPresent: bool, err: Option<Mark>, target: Name)
      requires Valid() && Ready(job, disk)
      modifies this`disk, this`trace, this`faults
      ensures Valid() && Txn(job) in disk.dirs
      ensures changed ==> Published(job, disk, target) && Chosen(job, base, style, target)
      ensures changed && err.Some? ==> err.value.changed
      ensures !changed && (allowlisted || cleanupAllowed) ==> disk == old(disk)
      ensures cleanupAllowed ==> entryPresent == !changed
      ensures cleanupAllowed && !entryPresent ==> disk.dirs[Txn(job)] == map[]
      ensures cleanupAllowed ==> !Unknown(err)
      ensures err.None? ==> cleanupAllowed && (changed || (style == Skip && Taken(job, base)))
      ensures err.Some? && disk != old(disk) ==> err.value.changed
      ensures if changed then Unknown(err) <==> !Settled(job, disk) else !Unknown(err) ==> Settled(job, disk)
      ensures faults >= old(faults) && (reliable ==> faults == old(faults)) && (err.None? ==> faults == old(faults))
      ensures changed && faults == old(faults) ==> err.None?
      ensures allowlisted && faults == old(faults) ==>
                cleanupAllowed && err == if Publishable(job, base, style) then None else Some(PLAIN)
      ensures allowlisted && faults == old(faults) ==> changed == (err.None? && !(style == Skip && Taken(job, base)))
    {
      hide Complete, Safe, Sound, NoLag, Settled, Kept, Published, Staging, Move, Candidate, Ready, FirstFree, Chosen;
      hide Taken, Publishable, Replaceable;
      changed, cleanupAllowed, entryPresent, err, target := false, false, true, Some(PLAIN), base;
      ReadyFacts(job, disk);
      TxnIsNotDest(job);
      var valid := Check();
      if !valid { return; }
      var limit := if style == Rename then MAX_CANDIDATES else 1;
      for index := 0 to limit
        invariant Valid() && disk == old(disk) && !changed && entryPresent && err == Some(PLAIN)
        invariant faults == old(faults) && (style != Rename ==> index == 0)
        invariant forall m: nat | m < index :: Candidate(base, m).Some? && Taken(job, Candidate(base, m).value)
      {
        cleanupAllowed := true;
        if Candidate(base, index).None? {
          NoNameLeft(job, base, style, index);
          return;
        }
        target := Candidate(base, index).value;
        ChosenHere(job, base, style, target, index);
        PublishableHere(job, base, style, target, index);
        BoundIsTaken(job, disk, target);
        valid := Check();
        cleanupAllowed := false;
        if !valid { return; }
        var free, moved := Bound(disk, job.dest, target).None?, false;
        if free {
          MovePublishes(job, disk, target);
          moved := Try(Move(disk, Txn(job), ENTRY, job.dest, target));
          // Elsewhere a rename that took effect may still report a failure.
          var reported := true;
          if !allowlisted { reported := Check(); }
          if moved && reported {
            err := Settle(target);
            changed, entryPresent, cleanupAllowed := true, false, err.None?;
            return;
          }
        }
        // The rename reported a failure; only on an allowlisted filesystem does that mean
        // that nothing happened.
        var known := Check();
        if !known || !allowlisted {
          err := Some(Mark(true, true));
          return;
        }
        cleanupAllowed := true;
        var conflict := Check();
        if free || !conflict { return; }
        match style
        case Skip =>
          var closed := Check();
          if closed { err := None; }
          return;
        case Replace =>
          changed, cleanupAllowed, entryPresent, err := ReplaceAt(target);
          if changed { PublishedName(job, disk, target); }
          return;
        case Rename =>
      }
      NoNameLeft(job, base, style, limit);
      cleanupAllowed := true;
    }

    // The deferred end of copyManagedTransfer.
    method Finish(cleanupAllowed: bool, entryPresent: bool, stagingSynced: bool, outcome: Option<Mark>)
      returns (err: Option<Mark>, closed: bool)
      requires Valid() && Txn(job) in disk.dirs
      requires cleanupAllowed ==> NoLag(disk, job.dest) && Txn(job) < disk.next
      requires cleanupAllowed && entryPresent ==> Staging(job, disk) && disk.dirs[Txn(job)].Keys == {ENTRY}
      requires cleanupAllowed && !entryPresent ==> disk.dirs[Txn(job)] == map[]
      requires !Unknown(outcome) ==> NoLag(disk, job.dest)
      requires !Unknown(outcome) ==> NoLag(disk, Txn(job)) || (cleanupAllowed && entryPresent && !stagingSynced)
      modifies this`disk, this`trace, this`faults, this`unlinked
      ensures Valid() && forall n | n != job.txn :: Bound(disk, job.dest, n) == Bound(old(disk), job.dest, n)
      ensures !cleanupAllowed ==> disk == old(disk) && err.Some? && err.value.changed
      ensures cleanupAllowed && entryPresent ==> Unpublished(job, disk)
      ensures cleanupAllowed && !entryPresent ==> Settles(job, old(disk), disk)
      ensures err.None? ==> outcome.None?
      ensures err.None? || !err.value.changed ==> cleanupAllowed && Bound(disk, job.dest, job.txn).None?
      ensures !Unknown(err) ==> Settled(job, disk)
      ensures cleanupAllowed && stagingSynced && Unknown(err) ==> Unknown(outcome) || Pending(job, disk)
      ensures !cleanupAllowed ==> (Unknown(err) <==> Unknown(outcome) || (outcome.None? && closed) ||
                                                     ((outcome.None? || !outcome.value.changed) && entryPresent &&
                                                       !stagingSynced))
      ensures faults >= old(faults) && (reliable ==> faults == old(faults))
      ensures (err.None? ==> faults == old(faults) && closed)
      ensures faults == old(faults) && cleanupAllowed &&
                (entryPresent ==> Bounded(old(disk), Txn(job), MAX_DEPTH + 1)) ==>
                err == Join(outcome, if closed then None else Some(PLAIN))
      ensures outcome.Some? && outcome.value.changed ==> err.Some? && err.value.changed
      ensures cleanupAllowed && err.Some? && !err.value.changed && outcome.None? ==> faults == old(faults) && !closed
      ensures reliable ==> closed == closes
    {
      hide Complete, Safe, Sound, Settles, NoLag, Kept, Staging, Bounded, Pending;
      if !cleanupAllowed {
        closed := CloseTransaction();
        var closeErr := if closed then None else Some(PLAIN);
        var cause := Join(outcome, closeErr);
        var missing := cause.None?;
        if missing { cause := Some(PLAIN); }
        var unknown := Unknown(cause) || (!cause.value.changed && ((entryPresent && !stagingSynced) || missing));
        err := MarkChanged(unknown, cause);
        return;
      }
      var cleanupErr := Cleanup(entryPresent);
      cleanupErr := MarkChanged(Unknown(cleanupErr) || (entryPresent && !stagingSynced), cleanupErr);
      closed := CloseTransaction();
      err := Join(Join(outcome, cleanupErr), if closed then None else Some(PLAIN));
    }

    // createManagedTransferTransaction and the sync that follows it
    method OpenTransaction() returns (err: Option<Mark>)
      requires Valid() && disk == job.start
      modifies this`disk, this`trace, this`faults
      ensures Valid() && Unpublished(job, disk)
      ensures err.None? ==> Opened(job, disk)
      ensures err.Some? ==> disk == job.start || err == Some(Mark(true, true))
      ensures faults >= old(faults) && (reliable ==> faults == old(faults))
      ensures faults == old(faults) ==> err == if Bound(job.start, job.dest, job.txn).None? then None else Some(PLAIN)
      ensures err.None? ==> faults == old(faults)
    {
      hide Complete, Safe, Sound, NoLag, Kept, Staging, Unpublished, MakeDir, SyncDir, Opened;
      StartIsUnpublished(job);
      err := Some(PLAIN);
      var drawn := Check();
      if !drawn || Bound(disk, job.dest, job.txn).Some? { return; }
      TransactionMade(job);
      var made := Try(MakeDir(disk, job.dest, job.txn));
      if !made { return; }
      err := Some(Mark(true, true));
      var usable := Check();
      if !usable { return; }
      var synced := Try(SyncDir(disk, job.dest));
      if synced { err := None; }
    }

    method PublishAndFinish(base: Name, style: Style)
      returns (changed: bool, err: Option<Mark>, target: Name, closed: bool)
      requires Valid() && Ready(job, disk) && Bound(job.start, job.dest, job.txn).None?
      modifies this`disk, this`trace, this`faults, this`unlinked
      ensures Valid()
      ensures changed ==> Published(job, disk, target) && Chosen(job, base, style, target)
      ensures allowlisted && !changed ==> Unpublished(job, disk)
      ensures err.None? ==> changed || (style == Skip && Taken(job, base))
      ensures err.None? || !err.value.changed ==> Bound(disk, job.dest, job.txn).None?
      ensures err.Some? && !err.value.changed && !changed ==> Unpublished(job, disk)
      ensures !Unknown(err) ==> Settled(job, disk)
      ensures changed && Unknown(err) ==> Pending(job, disk)
      ensures faults >= old(faults) && (reliable ==> faults == old(faults))
      ensures (err.None? ==> faults == old(faults) && closed)
      ensures changed ==> (err.Some? && !err.value.changed <==> faults == old(faults) && !closed)
      ensures reliable ==> closed == closes
      ensures allowlisted && faults == old(faults) ==>
                && err == Join(if Publishable(job, base, style) then None else Some(PLAIN),
                               if closed then None else Some(PLAIN))
                && changed == (Publishable(job, base, style) && !(style == Skip && Taken(job, base)))
    {
      hide Complete, Safe, Sound, Settles, NoLag, Kept, Staging, Unpublished, Published, Chosen, Taken, Ready;
      hide Publishable, Bounded, Settled, Pending;
      var cleanupAllowed, entryPresent;
      ReadyToClean(job, disk);
      changed, cleanupAllowed, entryPresent, err, target := Publish(base, style);
      if changed { PublishedHasTxn(job, disk, target); }
      ghost var before := disk;
      SettledParts(job, disk);
      if !Settled(job, disk) { UnsettledIsPending(job, disk); }
      err, closed := Finish(cleanupAllowed, entryPresent, true, err);
      if changed && cleanupAllowed { SettlingKeepsPublished(job, before, disk, target); }
    }

    /** copyManagedTransfer.  Valid says that a crash at any point of the run, whatever
        failed, finds under every destination name what was there or the whole copy. */
    method CopyTransfer(base: Name, style: Style) returns (changed: bool, err: Option<Mark>, target: Name, closed: bool)
      requires Valid() && disk == job.start
      modifies this
      ensures Valid()
      ensures changed ==>
                && Published(job, disk, target) && Chosen(job, base, style, target)
      ensures allowlisted ==> (changed <==> exists n | n != job.txn :: Bound(disk, job.dest, n) == Some(Staged(job)))
      ensures allowlisted && !changed ==>
                forall n | n != job.txn :: Bound(disk, job.dest, n) == Bound(job.start, job.dest, n)
      ensures err.None? ==> changed || (style == Skip && Taken(job, base))
      ensures err.None? || !err.value.changed ==> disk == job.start || Bound(disk, job.dest, job.txn).None?
      ensures err.Some? && !err.value.changed && !changed ==>
                forall n :: Bound(disk, job.dest, n) == Bound(job.start, job.dest, n)
      ensures !Unknown(err) ==> disk == job.start || Settled(job, disk)
      ensures changed && Unknown(err) ==> Pending(job, disk)
      // A published copy comes with an unmarked error exactly when the final close failed and
      // nothing else did.
      ensures changed ==> (err.Some? && !err.value.changed <==> faults == old(faults) && !closed)
      // The transfer succeeds only when no call fails, and then exactly when the request
      // allows it; a refusal is an unmarked error: nothing changed.
      ensures err.None? ==> faults == old(faults) && closed
      ensures reliable ==> faults == old(faults) && (Bound(job.start, job.dest, job.txn).None? ==> closed == closes)
      ensures allowlisted && faults == old(faults) ==>
                && err == Join(if Transferable(job, base, style) then None else Some(PLAIN),
                               if closed then None else Some(PLAIN))
                && changed == (Transferable(job, base, style) && !(style == Skip && Taken(job, base)))
    {
      hide Complete, Safe, Sound, Settles, NoLag, Kept, Staging, Unpublished, Published, Chosen, Taken, Grown, MakeDir;
      hide SyncDir, Ready, Publishable, Copyable, Count, Size, Bounded, Pending, Settled;
      changed, err, target, closed := false, Some(PLAIN), base, true;
      entries, bytes := 0, 0;
      var ok := OpenTransaction();
      UnpublishedNames(job, disk);
      if !ok.None? { return false, ok, base, true; }
      ghost var empty := disk;
      var created, copied := CopyTree(job.tree, Txn(job), ENTRY, 0);
      OpenedName(job, empty);
      changed, err, target, closed := FinishCopy(empty, created, copied, base, style);
      if changed { PublishedName(job, disk, target); }
      else if allowlisted || (err.Some? && !err.value.changed) { UnpublishedNames(job, disk); }
    }

    // The rest of copyManagedTransfer, once staging has ended.
    method FinishCopy(ghost empty: Disk, created: bool, copied: bool, base: Name, style: Style)
      returns (changed: bool, err: Option<Mark>, target: Name, closed: bool)
      requires Valid() && Opened(job, empty) && Staging(job, disk) && Grown(empty, disk, Txn(job), ENTRY)
      requires if created
               then Bound(disk, Txn(job), ENTRY) == Some(Staged(job)) && Bounded(disk, Staged(job), MAX_DEPTH)
               else disk == empty
      requires copied ==> created && Complete(disk, Staged(job), job.tree, disk.next)
      modifies this`disk, this`trace, this`faults, this`unlinked
      ensures Valid()
      ensures changed ==> Published(job, disk, target) && Chosen(job, base, style, target)
      ensures allowlisted && !changed ==> Unpublished(job, disk)
      ensures err.None? ==> changed || (style == Skip && Taken(job, base))
      ensures err.None? || !err.value.changed ==> Bound(disk, job.dest, job.txn).None?
      ensures err.Some? && !err.value.changed && !changed ==> Unpublished(job, disk)
      ensures !Unknown(err) ==> Settled(job, disk)
      ensures changed && Unknown(err) ==> Pending(job, disk)
      ensures changed ==> copied && (err.Some? && !err.value.changed <==> faults == old(faults) && !closed)
      ensures faults >= old(faults) && (err.None? ==> copied && faults == old(faults) && closed)
      ensures reliable ==> faults == old(faults) && closed == closes
      ensures allowlisted && faults == old(faults) ==>
                && err == Join(if copied && Publishable(job, base, style) then None else Some(PLAIN),
                               if closed then None else Some(PLAIN))
                && changed == (copied && Publishable(job, base, style) && !(style == Skip && Taken(job, base)))
    {
      hide Complete, Safe, Sound, Settles, NoLag, Kept, Staging, Unpublished, Published, Chosen, Taken, Grown, MakeDir;
      hide SyncDir, Ready, Publishable, Bounded, Pending, Settled, Opened;
      changed, err, target := false, Some(PLAIN), base;
      StagedInside(job, empty, disk, created);
      SettledParts(job, disk);
      var identified := Check();
      if !copied || !identified {
        ghost var staged := disk;
        BoundedTransaction(job, disk, MAX_DEPTH);
        err, closed := Finish(true, created, false, err);
        if !created { SettlingKeepsUnpublished(job, staged, disk); }
        return;
      }
      StagedIsReady(job, empty, disk);
      var synced := Try(SyncDir(disk, Txn(job)));
      if !synced {
        err, closed := Finish(false, true, false, Some(Mark(true, true)));
        return;
      }
      changed, err, target, closed := PublishAndFinish(base, style);
    }
  }

  /** A run that publishes the copy and returns an error without the changed mark: an empty
      file is copied into an empty directory, and only the final close fails. */
  method UnmarkedChange() returns (changed: bool, err: Option<Mark>)
    ensures changed && err == Some(PLAIN)
  {
    hide Ext, Decimal;
    var start := Disk(1, map[0 := map[]], map[], {}, {});
    var j := Job(start, 0, "t", File([], 1));
    assert Transferable(j, "a", Skip) && !Taken(j, "a");
    var transfer := new Transfer(j.start, j.dest, j.txn, j.tree, true, true, false);
    var target, closed;
    changed, err, target, closed := transfer.CopyTransfer("a", Skip);
  }
}
