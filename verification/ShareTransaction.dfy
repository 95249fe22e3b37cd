/**
 Creating, deleting and reassigning Samba shares (service/shares.go): a database
 transaction, directory owners and two configuration files change together or not at all.

 The files are changed by the publisher of SambaConfigPublish, run in directories nobody
 else touches meanwhile.  At most one step fails, be it a step of that publisher or one of
 the service's own; the undo meets no further failure, but may find its way blocked by what
 the failing step left behind.
 */
module ShareTransaction {
  import opened Basics
  import opened LegacyFragment
  import opened SambaRender
  import Cas = SambaConfigPublish

  datatype Which = Main | Fragment

  // The step that failed.  A publication may fail before or after the new file took its
  // name, and may leave a staging or quarantine entry in the directory.
  datatype Step = Other | Reread(which: Which) | Publish(which: Which, published: bool, leftover: bool)

  const ROOT_MODE := 0x1ED // 0755
  const ACCOUNT_MODE := 0x1F8 // 0770

  datatype Owner = Owner(account: string, mode: nat)

  // Whom a share directory belongs to for an account name; the empty one is the system's.
  function OwnerFor(username: string): Owner {
    if username == "" then Owner("", ROOT_MODE) else Owner(username, ACCOUNT_MODE)
  }

  // Undoes one change of ownership: the directory, and owner and mode it had before.
  datatype Undo = Undo(path: string, owner: Option<Owner>)

  function SetOwner(owners: map<string, Owner>, path: string, owner: Option<Owner>): map<string, Owner> {
    if owner.Some? then owners[path := owner.value] else owners - {path}
  }

  function OwnerOf(owners: map<string, Owner>, path: string): Option<Owner> {
    if path in owners then Some(owners[path]) else None
  }

  // The undo list, applied from its end.
  function Undone(owners: map<string, Owner>, undo: seq<Undo>): map<string, Owner>
    decreases |undo|
  {
    if undo == [] then owners
    else Undone(SetOwner(owners, undo[|undo| - 1].path, undo[|undo| - 1].owner), undo[..|undo| - 1])
  }

  // The shares with an account hand their directories to it, or back to the system.
  function Owned(owners: map<string, Owner>, shares: seq<Share>, release: bool): map<string, Owner> {
    if shares == [] then owners
    else
      var before, s := Owned(owners, shares[..|shares| - 1], release), shares[|shares| - 1];
      if s.username == "" then before else before[s.path := OwnerFor(if release then "" else s.username)]
  }

  // The last of the shares with an account at this path.
  predicate LastAt(shares: seq<Share>, i: nat)
    requires i < |shares|
  {
    && shares[i].username != ""
    && forall k | i < k < |shares| && shares[k].username != "" :: shares[k].path != shares[i].path
  }

  // Each directory of a share with an account belongs to that account, or, released, to the
  // system; every other directory to whom it did.
  ghost predicate HandedOver(before: map<string, Owner>, after: map<string, Owner>, shares: seq<Share>, release: bool) {
    && (forall i | 0 <= i < |shares| && LastAt(shares, i) ::
          OwnerOf(after, shares[i].path) == Some(HandedTo(shares[i].username, release)))
    && (forall p | Elsewhere(shares, p) :: OwnerOf(after, p) == OwnerOf(before, p))
  }

  // Modes 0770 and 0755.
  function HandedTo(username: string, release: bool): Owner {
    if release then Owner("", 0x1ED) else Owner(username, 0x1F8)
  }

  predicate Elsewhere(shares: seq<Share>, p: string) {
    forall i | 0 <= i < |shares| && shares[i].username != "" :: shares[i].path != p
  }

  lemma {:induction false} OwnedHandsOver(owners: map<string, Owner>, shares: seq<Share>, release: bool)
    ensures HandedOver(owners, Owned(owners, shares, release), shares, release)
  {
    if shares != [] {
      var n := |shares| - 1;
      OwnedHandsOver(owners, shares[..n], release);
      var before := Owned(owners, shares[..n], release);
      assert shares[n].username != "" ==>
        OwnerFor(if release then "" else shares[n].username) == HandedTo(shares[n].username, release);
      OneMoreHandedOver(owners, before, shares, n, release);
    }
  }

  lemma OneMoreHandedOver(owners: map<string, Owner>, before: map<string, Owner>, shares: seq<Share>, n: nat,
                          release: bool)
    requires |shares| == n + 1 && HandedOver(owners, before, shares[..n], release)
    ensures HandedOver(owners, if shares[n].username == "" then before
                               else before[shares[n].path := HandedTo(shares[n].username, release)], shares, release)
  {
    hide HandedTo, OwnerOf, LastAt, Elsewhere;
    var rest, last := shares[..n], shares[n];
    var after := if last.username == "" then before else before[last.path := HandedTo(last.username, release)];
    forall i | 0 <= i < |shares| && LastAt(shares, i)
      ensures OwnerOf(after, shares[i].path) == Some(HandedTo(shares[i].username, release))
    {
      LastEarlier(shares, n, i);
      if last.username != "" { OwnerAfter(before, last.path, HandedTo(last.username, release), shares[i].path); }
    }
    forall p | Elsewhere(shares, p) ensures OwnerOf(after, p) == OwnerOf(owners, p) {
      ElsewhereEarlier(shares, n, p);
      if last.username != "" { OwnerAfter(before, last.path, HandedTo(last.username, release), p); }
    }
  }

  lemma OwnerAfter(owners: map<string, Owner>, path: string, owner: Owner, p: string)
    ensures OwnerOf(owners[path := owner], p) == if p == path then Some(owner) else OwnerOf(owners, p)
  {
  }

  lemma LastEarlier(shares: seq<Share>, n: nat, i: nat)
    requires |shares| == n + 1 && i <= n && LastAt(shares, i)
    ensures shares[i].username != ""
    ensures i < n ==>
              && i < |shares[..n]| && shares[..n][i] == shares[i] && LastAt(shares[..n], i)
              && (shares[n].username != "" ==> shares[n].path != shares[i].path)
  {
  }

  lemma ElsewhereEarlier(shares: seq<Share>, n: nat, p: string)
    requires |shares| == n + 1 && Elsewhere(shares, p)
    ensures Elsewhere(shares[..n], p) && (shares[n].username != "" ==> shares[n].path != p)
  {
  }

  lemma UndoneOneMore(owners: map<string, Owner>, undo: seq<Undo>, path: string, owner: Owner)
    ensures Undone(owners[path := owner], undo + [Undo(path, OwnerOf(owners, path))]) == Undone(owners, undo)
  {
    var u := Undo(path, OwnerOf(owners, path));
    assert (undo + [u])[..|undo|] == undo;
    Reset(owners, path, owner);
  }

  lemma NothingUndone(owners: map<string, Owner>)
    ensures Undone(owners, []) == owners
  {
  }

  lemma Reset(owners: map<string, Owner>, path: string, owner: Owner)
    ensures SetOwner(owners[path := owner], path, OwnerOf(owners, path)) == owners
  {
  }

  // Which single failures are not undone: `rewritesMain` says that the run replaces a legacy
  // main configuration, `differs` that the candidate is not what the fragment already was.
  predicate Unrestored(failed: Step, rewritesMain: bool, differs: bool, sameDirectory: bool) {
    match failed
    case Other => false
    case Reread(which) => which == Main || differs
    case Publish(which, published, leftover) =>
      leftover && if which == Main then published else (published && differs) || (rewritesMain && sameDirectory)
  }

  lemma OtherIsUndone()
    ensures forall rewritesMain, differs, sameDirectory :: !Unrestored(Other, rewritesMain, differs, sameDirectory)
  {
  }

  function WithUser(rows: seq<Share>, i: nat, username: string): seq<Share> {
    if i < |rows| then rows[i := rows[i].(username := username)] else rows
  }

  function WithoutRow(rows: seq<Share>, i: nat): seq<Share> {
    if i < |rows| then rows[..i] + rows[i + 1..] else rows
  }

  // ---------- the files of a directory ----------

  function FileOf(s: Cas.Snapshot): File {
    if s.Present? then File(s.data, s.perm) else Missing
  }

  function SnapshotAt(d: Cas.Dir, name: string): Cas.Snapshot {
    if name in d.names && d.names[name] in d.files then
      Cas.Present(d.names[name], d.files[d.names[name]].data, d.files[d.names[name]].perm)
    else Cas.Absent
  }

  lemma MatchIsUnique(d: Cas.Dir, name: string, s: Cas.Snapshot)
    requires Cas.WellFormed(d) && Cas.Matches(d, name, s)
    ensures SnapshotAt(d, name) == s
  {
  }

  lemma LoadedMatches(d: Cas.Dir, name: string)
    requires Cas.WellFormed(d) && (name in d.names ==> Cas.Readable(d, name))
    ensures Cas.Matches(d, name, SnapshotAt(d, name))
    ensures var s := SnapshotAt(d, name); s.Present? ==> |s.data| <= Cas.MAX_CONFIG_BYTES
  {
  }

  // What a change of one file leaves of another in the same directory.
  lemma OtherFileKept(d: Cas.Dir, e: Cas.Dir, name: string, expected: Cas.Snapshot, other: string)
    requires Cas.WellFormed(d) && Cas.Matches(d, name, expected) && other != name
    requires Cas.Keeps(d, e, other) && Cas.SameFiles(d, e, Cas.Inos(expected))
    ensures SnapshotAt(e, other) == SnapshotAt(d, other)
  {
  }

  lemma OtherMatchKept(d: Cas.Dir, e: Cas.Dir, name: string, expected: Cas.Snapshot, other: string, t: Cas.Snapshot)
    requires Cas.Matches(d, name, expected) && other != name && !Cas.Marked(other)
    requires Cas.Keeps(d, e, other) && Cas.OthersStand(d, e, name, expected) && Cas.Matches(d, other, t)
    ensures Cas.Matches(e, other, t)
  {
    hide Cas.Marked;
  }

  lemma LeftAside(d: Cas.Dir, e: Cas.Dir, name: string, expected: Cas.Snapshot, other: string)
    requires Cas.WellFormed(d) && Cas.Matches(d, name, expected) && other != name && !Cas.Marked(other)
    requires Cas.Keeps(d, e, other) && Cas.SameFiles(d, e, Cas.Inos(expected)) && Cas.OthersStand(d, e, name, expected)
    ensures SnapshotAt(e, other) == SnapshotAt(d, other)
    ensures forall t: Cas.Snapshot | Cas.Matches(d, other, t) :: Cas.Matches(e, other, t)
  {
    hide Cas.Marked, Cas.Keeps, Cas.SameFiles, Cas.OthersStand, Cas.Matches;
    OtherFileKept(d, e, name, expected, other);
    forall t: Cas.Snapshot | Cas.Matches(d, other, t) ensures Cas.Matches(e, other, t) {
      OtherMatchKept(d, e, name, expected, other, t);
    }
  }

  // Exactly one name of d was rebound or unbound.
  lemma OthersAfter(d: Cas.Dir, e: Cas.Dir, name: string, expected: Cas.Snapshot, other: string, t: Cas.Snapshot)
    requires Cas.WellFormed(d) && Cas.Matches(d, name, expected) && other != name
    requires Cas.SameFiles(d, e, Cas.Inos(expected))
    requires e.names == d.names - {name}
    ensures Cas.Matches(d, other, t) ==> Cas.Matches(e, other, t)
    ensures SnapshotAt(e, other) == SnapshotAt(d, other)
  {
  }

  lemma ReplacedLeavesNoMark(d: Cas.Dir, e: Cas.Dir, name: string, expected: Cas.Snapshot, published: Cas.Snapshot)
    requires published.Present? && Cas.Replaced(d, e, name, expected, published) && !Cas.HasMarked(d)
    requires !Cas.Marked(name)
    ensures !Cas.HasMarked(e)
  {
    hide Cas.Marked;
  }

  lemma Told(d: Cas.Dir, name: string, expected: Cas.Snapshot, published: Cas.Snapshot)
    requires Cas.Stands(d, name, expected, published)
    ensures Cas.Matches(d, name, if published.Present? then published else expected)
  {
  }

  /** One run of the publisher while nobody else acts and at most one of its calls fails. */
  method PublishIn(d: Cas.Dir, name: string, other: string, expected: Cas.Snapshot, data: string, perm: nat, limit: nat)
    returns (e: Cas.Dir, published: Cas.Snapshot, ok: bool, left: nat)
    requires Cas.WellFormed(d) && |data| <= Cas.MAX_CONFIG_BYTES && Cas.Matches(d, name, expected) && limit <= 1
    requires !Cas.Marked(name) && !Cas.Marked(other) && other != name
    ensures Cas.WellFormed(e) && (published.Present? ==> published.data == data && published.perm == perm)
    ensures Cas.Matches(e, name, if published.Present? then published else expected)
    ensures SnapshotAt(e, other) == SnapshotAt(d, other)
    ensures forall t: Cas.Snapshot | Cas.Matches(d, other, t) :: Cas.Matches(e, other, t)
    ensures Cas.HasMarked(d) ==> !ok && published == Cas.Absent && e == d
    ensures ok ==> published.Present? && !Cas.HasMarked(e) && left == limit
    ensures !ok && !Cas.HasMarked(d) ==> limit == 1 && left == 0
  {
    hide Cas.HasMarked, Cas.Marked, Cas.Matches, Cas.Replaced, Cas.Stands, Cas.SameFiles, Cas.OthersStand, Cas.Keeps;
    hide Cas.Tracked, Cas.Drawn;
    hide Cas.SwapJudged, Cas.FirstSwap, Cas.PublishTouches, Cas.Licence, Cas.Touches, SnapshotAt, Cas.OnlyActor;
    var directory := new Cas.ConfigDirectory(d, true, limit);
    ghost var staged;
    published, ok, staged := directory.Publish(name, expected, data, perm);
    e, left := directory.dir, directory.allowance;
    Told(e, name, expected, published);
    LeftAside(d, e, name, expected, other);
    if ok { ReplacedLeavesNoMark(d, e, name, expected, published); }
  }

  /** One run of the remover while nobody else acts and no call fails. */
  method RemoveIn(d: Cas.Dir, name: string, other: string, expected: Cas.Snapshot) returns (e: Cas.Dir, ok: bool)
    requires Cas.WellFormed(d) && expected.Present? && Cas.Matches(d, name, expected) && other != name
    ensures Cas.WellFormed(e) && ok == !Cas.HasMarked(d)
    ensures (if ok then name !in e.names && !Cas.HasMarked(e) else e == d)
    ensures SnapshotAt(e, other) == SnapshotAt(d, other)
    ensures forall t: Cas.Snapshot | Cas.Matches(d, other, t) :: Cas.Matches(e, other, t)
  {
    hide Cas.HasMarked, Cas.Marked, Cas.Matches, Cas.SameFiles, Cas.Keeps, Cas.Tracked, Cas.Drawn, Cas.RemovalTouches;
    hide Cas.Touches;
    hide SnapshotAt, Cas.OnlyActor;
    var directory := new Cas.ConfigDirectory(d, true, 0);
    ok := directory.Remove(name, expected);
    e := directory.dir;
    if ok {
      RemovedLeavesNoMark(d, e, name);
      forall t: Cas.Snapshot
        ensures Cas.Matches(d, other, t) ==> Cas.Matches(e, other, t)
      {
        OthersAfter(d, e, name, expected, other, t);
      }
      OthersAfter(d, e, name, expected, other, Cas.Absent);
    }
  }

  lemma RemovedLeavesNoMark(d: Cas.Dir, e: Cas.Dir, name: string)
    requires e.names == d.names - {name}
    ensures Cas.HasMarked(e) ==> Cas.HasMarked(d)
  {
    hide Cas.Marked;
  }

  // A write that failed, by the step that failed and what the caller was told.
  ghost predicate FailedWrite(which: Which, tracked: Cas.Snapshot, failed: Step, jammed: bool) {
    || (failed == Reread(which) && tracked.Absent? && !jammed)
    || (failed.Publish? && failed.which == which && failed.published == tracked.Present? && failed.leftover == jammed)
  }

  class Service {
    const roots: Roots
    const testparm: string -> bool
    const legacyMain: string
    const managedMain: string
    const external: bool
    const sameDirectory: bool
    const mainName: string
    const fragmentName: string
    // the only step that may fail, if one is singled out; one of the publisher's own does
    // not happen by itself, so then none fails
    const only: Option<Step>

    var rows: seq<Share>
    var owners: map<string, Owner>
    // the directory of the main configuration, and that of the fragment if it is another
    var here: Cas.Dir
    var there: Cas.Dir
    var faults: nat
    var failed: Option<Step>

    ghost predicate Valid()
      reads this
    {
      && MAIN_MARKER <= managedMain && !(MAIN_MARKER <= legacyMain) && |managedMain| <= Cas.MAX_CONFIG_BYTES
      && mainName != fragmentName && !Cas.Marked(mainName) && !Cas.Marked(fragmentName)
      && Cas.WellFormed(here) && Cas.WellFormed(there) && faults <= 1 && (faults == 1 ==> failed.None?)
      && (only.Some? && failed.Some? ==> failed == only && !only.value.Publish?)
    }

    constructor (roots: Roots,
                 testparm: string -> bool, legacyMain: string, managedMain: string, external: bool, sameDirectory: bool,
                 mainName: string, fragmentName: string, rows: seq<Share>, owners: map<string, Owner>, here: Cas.Dir,
                 there: Cas.Dir, only: Option<Step>)
      requires MAIN_MARKER <= managedMain && !(MAIN_MARKER <= legacyMain) && |managedMain| <= Cas.MAX_CONFIG_BYTES
      requires mainName != fragmentName && !Cas.Marked(mainName) && !Cas.Marked(fragmentName)
      requires Cas.WellFormed(here) && Cas.WellFormed(there)
      ensures Valid() && faults == 1 && this.rows == rows && this.owners == owners && this.here == here
      ensures this.there == there
      ensures this.roots == roots && this.testparm == testparm && this.legacyMain == legacyMain
      ensures this.managedMain == managedMain
      ensures this.external == external && this.sameDirectory == sameDirectory && this.only == only
      ensures this.mainName == mainName && this.fragmentName == fragmentName
    {
      this.roots, this.testparm, this.legacyMain, this.managedMain := roots, testparm, legacyMain, managedMain;
      this.external, this.sameDirectory, this.mainName, this.fragmentName :=
        external, sameDirectory, mainName, fragmentName;
      this.rows, this.owners, this.here, this.there, this.only := rows, owners, here, there, only;
      faults, failed := 1, None;
    }

    // A step about to be made fails.
    method Fails(step: Step) returns (bad: bool)
      requires Valid() && !step.Publish?
      modifies this`faults, this`failed
      ensures Valid() && (bad ==> old(faults) == 1 && faults == 0 && failed == Some(step))
      ensures !bad ==> faults == old(faults) && failed == old(failed)
      ensures only == Some(step) && old(faults) == 1 ==> bad
    {
      bad := *;
      if only.Some? { bad := only == Some(step); }
      if faults == 0 { bad := false; }
      if bad { faults, failed := 0, Some(step); }
    }

    function NameOf(which: Which): string {
      if which == Main then mainName else fragmentName
    }

    function DirOf(which: Which): Cas.Dir
      reads this`here, this`there
    {
      if which == Main || sameDirectory then here else there
    }

    method SetDir(which: Which, d: Cas.Dir)
      modifies this`here, this`there
      ensures if which == Main || sameDirectory then here == d && there == old(there)
              else there == d && here == old(here)
    {
      if which == Main || sameDirectory { here := d; } else { there := d; }
    }

    static function OtherOf(which: Which): Which {
      if which == Main then Fragment else Main
    }

    function Current(which: Which): File
      reads this`here, this`there
    {
      FileOf(SnapshotAt(DirOf(which), NameOf(which)))
    }

    // An unresolved entry blocks the directory of the file.
    predicate Jammed(which: Which)
      reads this`here, this`there
    {
      Cas.HasMarked(DirOf(which))
    }

    ghost predicate Holds(which: Which, s: Cas.Snapshot)
      reads this`here, this`there
    {
      Cas.Matches(DirOf(which), NameOf(which), s)
    }

    // What happens to one file leaves the other alone.
    twostate predicate Aside(which: Which)
      reads this
    {
      && Current(which) == old(Current(which))
      && forall s: Cas.Snapshot | old(Holds(which, s)) :: Holds(which, s)
    }

    lemma HoldsFile(which: Which, s: Cas.Snapshot)
      requires Valid() && Holds(which, s)
      ensures Current(which) == FileOf(s)
    {
      hide Cas.Matches, Cas.Marked;
      MatchIsUnique(DirOf(which), NameOf(which), s);
    }

    /** publishSambaConfigCAS without interference and with at most `limit` failing calls: the
        caller is told what the file now is, the other file is left alone, and without a
        failure only an unresolved entry stands in its way. */
    method PublishFile(which: Which, expected: Cas.Snapshot, data: string, perm: nat, limit: nat)
      returns (published: Cas.Snapshot, ok: bool)
      requires Valid() && |data| <= Cas.MAX_CONFIG_BYTES && Holds(which, expected) && limit <= faults
      requires (only.Some? ==> limit == 0)
      modifies this`here, this`there, this`faults, this`failed
      ensures Valid() && (published.Present? ==> published.data == data && published.perm == perm)
      ensures Holds(which, if published.Present? then published else expected) && Aside(OtherOf(which))
      ensures old(Jammed(which)) ==>
                !ok && published == Cas.Absent && here == old(here) && there == old(there) && faults == old(faults) &&
                  failed == old(failed)
      ensures ok ==> published.Present? && !Jammed(which) && faults == old(faults) && failed == old(failed)
      ensures !ok && !old(Jammed(which)) ==>
                limit == 1 && faults == 0 && failed == Some(Publish(which, published.Present?, Jammed(which)))
      ensures Jammed(OtherOf(which)) == if sameDirectory then Jammed(which) else old(Jammed(OtherOf(which)))
    {
      hide Cas.HasMarked, Cas.Marked, Cas.Matches, Cas.WellFormed, SnapshotAt, FileOf;
      var blocked, was := Jammed(which), DirOf(which);
      var now, left;
      now, published, ok, left := PublishIn(was, NameOf(which), NameOf(OtherOf(which)), expected, data, perm, limit);
      SetDir(which, now);
      if !ok && !blocked {
        faults, failed := 0, Some(Publish(which, published.Present?, Jammed(which)));
      }
    }

    // writeTrackedSambaConfig: the snapshot by which the caller knows that the file is its
    // own, if it learns it
    method WriteTracked(which: Which, expected: Cas.Snapshot, data: string) returns (tracked: Cas.Snapshot, ok: bool)
      requires Valid() && faults == 1 && |data| <= Cas.MAX_CONFIG_BYTES && Holds(which, expected)
      modifies this`here, this`there, this`faults, this`failed
      ensures Valid() && Aside(OtherOf(which)) && (tracked.Present? ==> tracked.data == data && tracked.perm == PRIVATE)
      ensures if tracked.Present? then Holds(which, tracked)
              else if failed == Some(Reread(which)) then Current(which) == File(data, PRIVATE)
                else Holds(which, expected)
      ensures old(Jammed(which)) ==>
                !ok && tracked == Cas.Absent && here == old(here) && there == old(there) && faults == 1
      ensures ok ==> faults == 1 && tracked.Present? && !Jammed(which)
      ensures !ok && !old(Jammed(which)) ==>
                faults == 0 && failed.Some? && FailedWrite(which, tracked, failed.value, Jammed(which))
      ensures only == Some(Reread(which)) && !old(Jammed(which)) ==> failed == only
      ensures Jammed(OtherOf(which)) == if sameDirectory then Jammed(which) else old(Jammed(OtherOf(which)))
    {
      hide Cas.HasMarked, Cas.Marked, Cas.Matches, Cas.WellFormed, SnapshotAt;
      tracked, ok := Cas.Absent, false;
      var published, confirmed := PublishFile(which, expected, data, PRIVATE, if only.Some? then 0 else 1);
      if published.Absent? { return; }
      HoldsFile(which, published);
      var unreadable := Fails(Reread(which));
      if unreadable { return; }
      tracked, ok := published, confirmed;
    }

    // initSambaConfigLocked: is the main configuration to be replaced, or is it unusable?
    predicate RewritesMain()
      reads this`here, this`there
    {
      !external && Current(Main).File? && Current(Main).data == legacyMain
    }

    predicate MainUsable()
      reads this`here, this`there
    {
      external || (Current(Main).File? && (Current(Main).data == managedMain || Current(Main).data == legacyMain))
    }

    // Nothing but a failing step can stand in the way of these rows.
    predicate Publishable(pending: seq<Share>)
      reads this`here, this`there
    {
      && Render(roots, pending).Some? && testparm(Render(roots, pending).value) && MainUsable()
      && !Jammed(Fragment) && (RewritesMain() ==> !Jammed(Main))
    }

    // What captureConfigStateLocked demands of the files.
    predicate Captured()
      reads this`here, this`there
    {
      && (fragmentName in DirOf(Fragment).names ==> Cas.Readable(DirOf(Fragment), fragmentName))
      && (Current(Fragment).File? ==> Marker() <= Current(Fragment).data)
      && (!external ==> Cas.Readable(DirOf(Main), mainName))
    }

    // publishCandidateLocked, with the captured snapshots
    method PublishCandidate(c: string, main0: Cas.Snapshot, fragment0: Cas.Snapshot)
      returns (mainTracked: Cas.Snapshot, fragmentTracked: Cas.Snapshot, ok: bool)
      requires Valid() && faults == 1 && |c| <= Cas.MAX_CONFIG_BYTES && Holds(Fragment, fragment0)
      requires (RewritesMain() ==> Holds(Main, main0))
      modifies this`here, this`there, this`faults, this`failed
      ensures Valid() && (failed.Some? ==> faults == 0)
      ensures ok ==>
                && faults == 1 && Current(Fragment) == File(c, PRIVATE)
                && Current(Main) == if old(RewritesMain()) then File(managedMain, PRIVATE) else old(Current(Main))
      ensures mainTracked.Present? ==> Holds(Main, mainTracked) && old(RewritesMain())
      ensures fragmentTracked.Present? ==> Holds(Fragment, fragmentTracked)
      ensures Current(Main) == if mainTracked.Present? || failed == Some(Reread(Main))
                then File(managedMain, PRIVATE) else old(Current(Main))
      ensures Current(Fragment) == if fragmentTracked.Present? || failed == Some(Reread(Fragment))
                then File(c, PRIVATE) else old(Current(Fragment))
      ensures !ok || failed.Some? ==> Blocked(mainTracked, fragmentTracked, old(RewritesMain()))
      ensures ok ==>
                (mainTracked.Present? <==> old(RewritesMain())) && fragmentTracked.Present? && !Jammed(Fragment) &&
                  (old(RewritesMain()) ==> !Jammed(Main))
      ensures ok <==>
                && failed.None? && testparm(c) && old(MainUsable()) && !old(Jammed(Fragment))
                && (old(RewritesMain()) ==> !old(Jammed(Main)))
      ensures only == Some(Reread(Main)) && old(RewritesMain()) && testparm(c) && !old(Jammed(Main)) ==> failed == only
    {
      hide Cas.HasMarked, Cas.Marked, Cas.Matches, Cas.WellFormed, SnapshotAt, Holds;
      mainTracked, fragmentTracked, ok := Cas.Absent, Cas.Absent, false;
      HoldsFile(Fragment, fragment0);
      if RewritesMain() { HoldsFile(Main, main0); }
      if !testparm(c) { return; }
      var stale := Fails(Other);
      if stale || !MainUsable() { return; }
      if RewritesMain() {
        var unsaved := Fails(Other);
        if unsaved { return; }
        mainTracked, ok := WriteTracked(Main, main0, managedMain);
        if mainTracked.Present? {
          HoldsFile(Main, mainTracked);
        } else if failed != Some(Reread(Main)) {
          HoldsFile(Main, main0);
        }
        if !ok { return; }
      }
      fragmentTracked, ok := WriteTracked(Fragment, fragment0, c);
      if fragmentTracked.Present? {
        HoldsFile(Fragment, fragmentTracked);
      } else if failed != Some(Reread(Fragment)) {
        HoldsFile(Fragment, fragment0);
      }
      if !ok { return; }
      var down := Fails(Other);
      ok := !down;
    }

    // Whether a failed publication left something in the way of the undo of a file it told
    // of, by the step that failed.
    ghost predicate Blocked(mainTracked: Cas.Snapshot, fragmentTracked: Cas.Snapshot, rewrites: bool)
      reads this
    {
      && (failed.None? || failed == Some(Other) ==>
          (mainTracked.Present? ==> !Jammed(Main)) && (fragmentTracked.Present? ==> !Jammed(Fragment)))
      && (failed.None? ==> fragmentTracked.Absent?)
      && (failed == Some(Reread(Main)) ==> rewrites && mainTracked.Absent? && fragmentTracked.Absent?)
      && (failed == Some(Reread(Fragment)) ==>
          (mainTracked.Present? <==> rewrites) && fragmentTracked.Absent? && (rewrites ==> !Jammed(Main)))
      && (failed.Some? && failed.value.Publish? ==>
            var f := failed.value;
            if f.which == Main then rewrites && f.published == mainTracked.Present? && fragmentTracked.Absent? &&
              f.leftover == Jammed(Main)
            else
              && (mainTracked.Present? <==> rewrites) && f.published == fragmentTracked.Present?
              && f.leftover == Jammed(Fragment)
              && (rewrites ==> Jammed(Main) == (f.leftover && sameDirectory)))
    }

    // restoreSambaConfigSnapshotIfOwned: through the same publisher and remover
    method RestoreFile(which: Which, original: Cas.Snapshot, written: Cas.Snapshot) returns (restored: bool)
      requires Valid() && (written.Present? ==> Holds(which, written))
      requires (original.Present? ==> |original.data| <= Cas.MAX_CONFIG_BYTES)
      modifies this`here, this`there, this`faults, this`failed
      ensures Valid() && faults == old(faults) && failed == old(failed) && Aside(OtherOf(which))
      ensures restored == (written.Present? && !old(Jammed(which)))
      ensures Current(which) == if restored then FileOf(original) else old(Current(which))
      ensures Jammed(which) == old(Jammed(which)) && Jammed(OtherOf(which)) == old(Jammed(OtherOf(which)))
    {
      hide Cas.HasMarked, Cas.Marked, Cas.Matches, Cas.WellFormed, Cas.Readable;
      restored := false;
      if written.Absent? { return; }
      HoldsFile(which, written);
      if original.Present? {
        var published;
        published, restored := PublishFile(which, written, original.data, original.perm, 0);
        HoldsFile(which, if published.Present? then published else written);
      } else {
        var now;
        now, restored := RemoveIn(DirOf(which), NameOf(which), NameOf(OtherOf(which)), written);
        SetDir(which, now);
      }
    }

    /** restoreConfigStateLocked, the retained backup aside: of the files the caller knows to be
        its own, exactly those whose directory no unresolved entry blocks are as they were. */
    method Restore(main0: Cas.Snapshot, fragment0: Cas.Snapshot, mainTracked: Cas.Snapshot,
                   fragmentTracked: Cas.Snapshot)
      requires Valid() && (mainTracked.Present? ==> Holds(Main, mainTracked))
      requires (fragmentTracked.Present? ==> Holds(Fragment, fragmentTracked))
      requires main0.Present? ==> |main0.data| <= Cas.MAX_CONFIG_BYTES
      requires fragment0.Present? ==> |fragment0.data| <= Cas.MAX_CONFIG_BYTES
      modifies this`here, this`there, this`faults, this`failed
      ensures Valid() && faults == old(faults) && failed == old(failed)
      ensures Current(Main) == if mainTracked.Present? && !old(Jammed(Main)) then FileOf(main0) else old(Current(Main))
      ensures Current(Fragment) == if fragmentTracked.Present? && !old(Jammed(Fragment)) then FileOf(fragment0)
                else old(Current(Fragment))
    {
      hide Cas.HasMarked, Cas.Marked, Cas.Matches, Cas.WellFormed, Holds, FileOf;
      var _ := RestoreFile(Main, main0, mainTracked);
      var _ := RestoreFile(Fragment, fragment0, fragmentTracked);
    }

    // Publish the rendering of the pending rows, commit them, or undo everything.
    method Conclude(pending: seq<Share>, undo: seq<Undo>) returns (ok: bool)
      requires Valid() && faults == 1 && Captured()
      modifies this
      ensures Valid()
      ensures ok ==>
                && rows == pending && owners == old(owners) && Some(Current(Fragment)) == Rendered(pending)
                && Current(Main) == if old(RewritesMain()) then File(managedMain, PRIVATE) else old(Current(Main))
      ensures !ok ==> rows == old(rows) && owners == Undone(old(owners), undo)
      ensures ok <==> failed.None? && old(Publishable(pending))
      ensures !ok ==> (Current(Main) == old(Current(Main)) && Current(Fragment) == old(Current(Fragment)) <==>
                         !(failed.Some? && Unrestored(failed.value, old(RewritesMain()),
                           Rendered(pending) != Some(old(Current(Fragment))), sameDirectory)))
      ensures only == Some(Reread(Main)) && old(RewritesMain()) && old(Publishable(pending)) ==> failed == only
    {
      hide Render, Cas.HasMarked, Cas.Marked, Cas.Matches, Cas.WellFormed, Cas.Readable, SnapshotAt, Holds, Marker;
      hide Current, FileOf, Captured, Jammed, DirOf;
      ok := false;
      RenderIsSmall(pending);
      var c := RenderShares(roots, pending);
      if c.None? {
        owners := Undone(owners, undo);
        return;
      }
      // an external main configuration is not read
      var main0 := if external then Cas.Absent else SnapshotAt(DirOf(Main), mainName);
      var fragment0 := SnapshotAt(DirOf(Fragment), fragmentName);
      CapturedHolds();
      LegacyIsNotManaged();
      var mainTracked, fragmentTracked;
      mainTracked, fragmentTracked, ok := PublishCandidate(c.value, main0, fragment0);
      if ok {
        var uncommitted := Fails(Other);
        ok := !uncommitted;
      }
      if ok {
        rows := pending;
      } else {
        Restore(main0, fragment0, mainTracked, fragmentTracked);
        owners := Undone(owners, undo);
      }
    }

    lemma LegacyIsNotManaged()
      requires Valid()
      ensures RewritesMain() ==> Current(Main) != File(managedMain, PRIVATE)
    {
      hide Cas.Marked, Cas.WellFormed;
    }

    lemma CapturedHolds()
      requires Valid() && Captured()
      ensures Current(Main) == FileOf(SnapshotAt(DirOf(Main), mainName))
      ensures Current(Fragment) == FileOf(SnapshotAt(DirOf(Fragment), fragmentName))
      ensures Holds(Fragment, SnapshotAt(DirOf(Fragment), fragmentName))
      ensures (!external ==> Holds(Main, SnapshotAt(DirOf(Main), mainName)))
      ensures var s := SnapshotAt(DirOf(Fragment), fragmentName); s.Present? ==> |s.data| <= Cas.MAX_CONFIG_BYTES
      ensures var s := SnapshotAt(DirOf(Main), mainName); !external && s.Present? ==> |s.data| <= Cas.MAX_CONFIG_BYTES
    {
      hide Cas.Marked, Cas.Readable, Cas.Matches, Cas.WellFormed;
      LoadedMatches(DirOf(Fragment), fragmentName);
      if !external { LoadedMatches(DirOf(Main), mainName); }
    }

    lemma RenderIsSmall(pending: seq<Share>)
      ensures Render(roots, pending).Some? ==> |Render(roots, pending).value| <= Cas.MAX_CONFIG_BYTES
    {
      hide Renderable, Body, Marker;
    }

    function Rendered(pending: seq<Share>): Option<File> {
      var c := Render(roots, pending);
      if c.None? then None else Some(File(c.value, PRIVATE))
    }

    // The fragment holds exactly these shares, in this order, for nobody else to read.
    ghost predicate Shown(shares: seq<Share>)
      reads this`here, this`there
    {
      var f := Current(Fragment);
      f.File? && f.mode == 0x180 && IsFragment(f.data, shares)
    }

    lemma RenderedIsShown(shares: seq<Share>)
      requires Some(Current(Fragment)) == Rendered(shares)
      ensures Shown(shares) && Render(roots, shares).Some?
    {
      hide Render, IsFragment, Current;
      RenderedIsFragment(roots, shares);
    }

    // applyShareOwners
    method ApplyOwners(list: seq<Share>, release: bool) returns (ok: bool, undo: seq<Undo>)
      requires Valid() && faults == 1
      modifies this`owners, this`faults, this`failed
      ensures Valid()
      ensures ok ==> faults == 1 && owners == Owned(old(owners), list, release) && Undone(owners, undo) == old(owners)
      ensures ok ==> HandedOver(old(owners), owners, list, release)
      ensures !ok ==> faults == 0 && failed == Some(Other) && owners == old(owners)
    {
      hide Cas.Marked, Cas.WellFormed, OwnerFor, HandedOver;
      undo := [];
      for i := 0 to |list|
        invariant Valid() && faults == 1
        invariant owners == Owned(old(owners), list[..i], release) && Undone(owners, undo) == old(owners)
      {
        assert list[..i + 1][..i] == list[..i];
        if list[i].username == "" { continue; }
        var step: Undo;
        ok, step := HandOver(list[i].path, if release then "" else list[i].username);
        if !ok {
          owners := Undone(owners, undo);
          return;
        }
        undo := undo + [step];
      }
      assert list[..|list|] == list;
      OwnedHandsOver(old(owners), list, release);
      ok := true;
    }

    // setShareDirectoryOwner: both calls are made, and both undone if one of them failed
    method HandOver(path: string, username: string) returns (ok: bool, step: Undo)
      requires Valid() && faults == 1
      modifies this`owners, this`faults, this`failed
      ensures Valid()
      ensures ok ==> faults == 1 && owners == old(owners)[path := OwnerFor(username)]
      ensures ok ==> forall undo :: Undone(owners, undo + [step]) == Undone(old(owners), undo)
      ensures !ok ==> faults == 0 && failed == Some(Other) && owners == old(owners)
    {
      hide Cas.Marked, Cas.WellFormed;
      step := Undo(path, OwnerOf(owners, path));
      var refused := Fails(Other);
      ok := !refused;
      if !ok { return; }
      var before := if path in owners then owners[path] else OwnerFor("");
      var unchowned := Fails(Other);
      var unmoded := Fails(Other);
      var owner := Owner(if unchowned then before.account
        else OwnerFor(username).account, if unmoded then before.mode else OwnerFor(username).mode);
      Reset(owners, path, owner);
      forall undo ensures Undone(owners[path := owner], undo + [step]) == Undone(owners, undo) {
        UndoneOneMore(owners, undo, path, owner);
      }
      owners := owners[path := owner];
      ok := !unchowned && !unmoded;
      if !ok { owners := SetOwner(owners, step.path, step.owner); }
    }

    // captureConfigStateLocked
    method Capture() returns (ok: bool)
      requires Valid() && faults == 1
      modifies this`faults, this`failed
      ensures Valid() && (ok ==> faults == 1) && (!ok ==> failed.None? || failed == Some(Other))
      ensures ok <==> failed.None? && Captured()
      ensures only == Some(Reread(Main)) ==> faults == 1
    {
      hide Marker, Cas.Marked, Cas.WellFormed, Cas.Readable;
      var bad := Fails(Other);
      ok := !bad && Captured();
    }

    // Nothing but, in the excepted cases, the configuration files differs from the start.
    twostate predicate AllOrNothing(ok: bool, pending: seq<Share>, handed: map<string, Owner>)
      reads this
    {
      if ok then
        && rows == pending && owners == handed && Some(Current(Fragment)) == Rendered(pending)
        && Current(Main) == if old(RewritesMain()) then File(managedMain, PRIVATE) else old(Current(Main))
      else
        && rows == old(rows) && owners == old(owners)
        && (Current(Main) == old(Current(Main)) && Current(Fragment) == old(Current(Fragment)) <==>
              !(failed.Some? && Unrestored(failed.value, old(RewritesMain()),
                Rendered(pending) != Some(old(Current(Fragment))), sameDirectory)))
    }

    predicate Creatable(added: seq<Share>)
      reads this
    {
      && added != []
      && (forall i | 0 <= i < |added| :: !added[i].anonymous && roots.canonical(added[i].path) == Some(added[i].name))
      && Captured() && |rows| + |added| <= MAX_SHARES && Publishable(rows + added)
    }

    /** CreateShares: the rows are added, their directories handed over and the fragment
        rendered from the committed rows; or everything is as before, except exactly when the
        step that failed was the read-back of a file just replaced, or left an entry behind
        in the directory of a file that had to be put back.  It succeeds exactly when no step
        fails and the request can be rendered. */
    method CreateShares(added: seq<Share>) returns (ok: bool)
      requires Valid() && faults == 1
      modifies this
      ensures Valid()
      ensures AllOrNothing(ok, old(rows) + added, Owned(old(owners), added, false))
      ensures ok <==> failed.None? && old(Creatable(added))
      ensures ok ==> rows == old(rows) + added && Shown(rows)
      ensures ok ==> forall i | 0 <= i < |added| && added[i].username != "" ::
                OwnerOf(owners, added[i].path) == Some(Owner(added[i].username, ACCOUNT_MODE))
      ensures ok ==> forall p | Elsewhere(added, p) :: OwnerOf(owners, p) == OwnerOf(old(owners), p)
    {
      hide Render, Marker, Cas.HasMarked, Cas.Marked, Cas.WellFormed, Cas.Readable, SnapshotAt, Current, RewritesMain;
      hide Publishable, Captured, Unrestored, Rendered, OwnerFor, Undone, Owned, WithUser, WithoutRow, HandedOver;
      hide Shown, OwnerOf, Elsewhere;
      OtherIsUndone();
      ok := false;
      if added == [] || exists i | 0 <= i < |added| :: added[i].anonymous { return; }
      ok := Capture();
      if !ok { return; }
      ok := forall i | 0 <= i < |added| :: roots.canonical(added[i].path) == Some(added[i].name);
      if !ok || |rows| + |added| > MAX_SHARES { return false; }
      var refused := Fails(Other);
      if refused { return false; }
      var undo;
      ok, undo := ApplyOwners(added, false);
      if !ok { return; }
      ok := Conclude(rows + added, undo);
      if ok {
        RenderedIsShown(rows);
        AllHandedOver(roots, old(rows), added, old(owners), owners);
      }
    }

    method Find(id: nat) returns (i: nat)
      ensures i <= |rows| && (i < |rows| ==> rows[i].id == id) && forall k | 0 <= k < i :: rows[k].id != id
    {
      i := 0;
      while i < |rows| && rows[i].id != id
        invariant i <= |rows| && forall k | 0 <= k < i :: rows[k].id != id
      {
        i := i + 1;
      }
    }

    static lemma AllHandedOver(roots: Roots, rows: seq<Share>, added: seq<Share>, before: map<string, Owner>,
                               after: map<string, Owner>)
      requires Render(roots, rows + added).Some? && HandedOver(before, after, added, false)
      ensures forall i | 0 <= i < |added| && added[i].username != "" ::
                OwnerOf(after, added[i].path) == Some(Owner(added[i].username, ACCOUNT_MODE))
      ensures forall p | Elsewhere(added, p) :: OwnerOf(after, p) == OwnerOf(before, p)
    {
      hide Body, Marker, OwnerOf, Elsewhere;
      var all := rows + added;
      forall i | 0 <= i < |added| && added[i].username != "" ensures LastAt(added, i) {
        forall k | i < k < |added| && added[k].username != "" ensures added[k].path != added[i].path {
          assert all[|rows| + i] == added[i] && all[|rows| + k] == added[k];
        }
      }
    }

    /** SetShareUsername: all or nothing in the same sense. */
    method SetShareUsername(id: nat, username: string) returns (ok: bool, ghost i: nat)
      requires Valid() && faults == 1
      modifies this
      ensures Valid() && i <= |old(rows)| && (ok ==> i < |old(rows)|)
      ensures i < |old(rows)| ==>
                && old(rows)[i].id == id
                && AllOrNothing(ok, WithUser(old(rows), i, username),
                    old(owners)[old(rows)[i].path := OwnerFor(username)])
      ensures i == |old(rows)| ==>
                rows == old(rows) && owners == old(owners) && here == old(here) && there == old(there)
      ensures ok <==> && failed.None? && (username == "" || roots.userOk(username)) && old(Captured())
                      && i < |old(rows)| && old(Publishable(WithUser(rows, i, username)))
      ensures ok ==>
                && |rows| == |old(rows)| && rows[i] == old(rows)[i].(username := username) && Shown(rows)
                && (forall k | 0 <= k < |rows| && k != i :: rows[k] == old(rows)[k])
                && OwnerOf(owners, rows[i].path) == Some(HandedTo(username, username == ""))
                && forall p | p != rows[i].path :: OwnerOf(owners, p) == OwnerOf(old(owners), p)
    {
      hide Render, Marker, Cas.HasMarked, Cas.Marked, Cas.WellFormed, Cas.Readable, SnapshotAt, Current, RewritesMain;
      hide Publishable, Captured, Unrestored, Rendered, OwnerFor, Undone, Owned, WithUser, WithoutRow;
      hide Shown, OwnerOf, HandedTo;
      OtherIsUndone();
      var at := Find(id);
      i := at;
      ok := false;
      if username != "" && !roots.userOk(username) { return; }
      ok := Capture();
      if !ok { return; }
      var refused := Fails(Other);
      if refused || at == |rows| { return false, i; }
      var share := rows[at];
      var step: Undo;
      ok, step := HandOver(share.path, username);
      if !ok { return; }
      assert [] + [step] == [step];
      NothingUndone(old(owners));
      ok := Conclude(WithUser(rows, at, username), [step]);
      if ok {
        RenderedIsShown(rows);
        WithUserFacts(old(rows), at, username);
        OneHandedOver(old(owners), share.path, username);
      }
    }

    /** DeleteShare: all or nothing in the same sense; the account loses the directory. */
    method DeleteShare(id: nat) returns (ok: bool, ghost i: nat)
      requires Valid() && faults == 1
      modifies this
      ensures Valid() && i <= |old(rows)| && (ok ==> i < |old(rows)|)
      ensures (i < |old(rows)| ==> old(rows)[i].id == id) && forall k | 0 <= k < i :: old(rows)[k].id != id
      ensures i < |old(rows)| ==> AllOrNothing(ok, WithoutRow(old(rows), i), Owned(old(owners), [old(rows)[i]], true))
      ensures i == |old(rows)| ==>
                rows == old(rows) && owners == old(owners) && here == old(here) && there == old(there)
      ensures ok <==> failed.None? && old(Captured()) && i < |old(rows)| && old(Publishable(WithoutRow(rows, i)))
      ensures only == Some(Reread(Main)) && old(Captured()) && old(RewritesMain()) && i < |old(rows)| &&
                old(Publishable(WithoutRow(rows, i))) ==>
                failed == only
      ensures ok ==>
                && |rows| == |old(rows)| - 1 && Shown(rows)
                && (forall k | 0 <= k < |rows| :: rows[k] == old(rows)[if k < i then k else k + 1])
      ensures ok && old(rows)[i].username != "" ==> OwnerOf(owners, old(rows)[i].path) == Some(Owner("", ROOT_MODE))
      ensures ok ==> forall p | p != old(rows)[i].path || old(rows)[i].username == "" ::
                OwnerOf(owners, p) == OwnerOf(old(owners), p)
    {
      hide Render, Marker, Cas.HasMarked, Cas.Marked, Cas.WellFormed, Cas.Readable, SnapshotAt, Current, RewritesMain;
      hide Publishable, Captured, Unrestored, Rendered, OwnerFor, Undone, Owned, WithUser, WithoutRow;
      hide Shown, OwnerOf, HandedOver;
      OtherIsUndone();
      var at := Find(id);
      i := at;
      ok := Capture();
      if !ok { return; }
      var refused := Fails(Other);
      if refused || at == |rows| { return false, i; }
      var undo;
      ok, undo := ApplyOwners([rows[at]], true);
      if !ok { return; }
      ok := Conclude(WithoutRow(rows, at), undo);
      if ok {
        RenderedIsShown(rows);
        WithoutRowFacts(old(rows), at);
        OneReleased(old(owners), owners, old(rows)[at]);
      }
    }
  }

  lemma WithUserFacts(rows: seq<Share>, i: nat, username: string)
    requires i < |rows|
    ensures var r := WithUser(rows, i, username);
            && |r| == |rows| && r[i] == rows[i].(username := username)
            && forall k | 0 <= k < |rows| && k != i :: r[k] == rows[k]
  {
  }

  lemma WithoutRowFacts(rows: seq<Share>, i: nat)
    requires i < |rows|
    ensures var r := WithoutRow(rows, i);
            |r| == |rows| - 1 && forall k | 0 <= k < |r| :: r[k] == rows[if k < i then k else k + 1]
  {
  }

  lemma OneHandedOver(owners: map<string, Owner>, path: string, username: string)
    ensures var after := owners[path := OwnerFor(username)];
            && OwnerOf(after, path) == Some(HandedTo(username, username == ""))
            && forall p | p != path :: OwnerOf(after, p) == OwnerOf(owners, p)
  {
  }

  lemma OneReleased(before: map<string, Owner>, after: map<string, Owner>, share: Share)
    requires HandedOver(before, after, [share], true)
    ensures share.username != "" ==> OwnerOf(after, share.path) == Some(Owner("", ROOT_MODE))
    ensures forall p | p != share.path || share.username == "" :: OwnerOf(after, p) == OwnerOf(before, p)
  {
    hide OwnerOf;
    if share.username != "" { assert LastAt([share], 0); }
    forall p | p != share.path || share.username == "" ensures OwnerOf(after, p) == OwnerOf(before, p) {
      assert Elsewhere([share], p);
    }
  }

  lemma ShortNamesAreUnmarked(name: string)
    requires 0 < |name| <= 20 && name[0] != '.'
    ensures !Cas.Marked(name)
  {
    Cas.MarkedIff(name);
  }

  lemma NothingToRender(roots: Roots)
    ensures Render(roots, []) == Some(Marker())
  {
    NoRows(roots);
  }

  function OnlyShare(): seq<Share> { [Share(1, "/data/p", "p", false, "")] }

  function LegacyHere(): Cas.Dir { Cas.Dir(map["smb.conf" := 0], map[0 := Cas.Inode(true, 0, "old", PRIVATE)]) }

  // An installation with a legacy main configuration, no fragment and one share, where only
  // the read-back of the main configuration fails.
  method LegacyService(roots: Roots) returns (s: Service)
    ensures fresh(s) && s.Valid() && s.faults == 1 && s.only == Some(Reread(Main)) && s.rows == OnlyShare()
    ensures s.Captured() && s.RewritesMain() && s.Publishable([])
  {
    ShortNamesAreUnmarked("smb.conf");
    ShortNamesAreUnmarked("shares.conf");
    assert !(MAIN_MARKER <= "old") by { assert |MAIN_MARKER| > |"old"|; }
    s := new Service(roots, c => true, "old", MAIN_MARKER, false, false, "smb.conf", "shares.conf", OnlyShare(), map[],
                     LegacyHere(), Cas.Dir(map[], map[]), Some(Reread(Main)));
    NothingToRender(roots);
    assert s.Current(Main) == File("old", PRIVATE);
  }

  /** A run that is refused and not undone: the share is to be deleted, the new main
      configuration is in place, and its read-back fails. */
  method ReadBackLost(roots: Roots) returns (ok: bool, s: Service, main0: File, fragment0: File)
    ensures !ok && s.rows == OnlyShare() && s.failed == Some(Reread(Main))
    ensures !(s.Current(Main) == main0 && s.Current(Fragment) == fragment0)
  {
    hide Render, Marker, Cas.HasMarked, Cas.Marked, Cas.WellFormed, Cas.Readable, SnapshotAt;
    s := LegacyService(roots);
    main0, fragment0 := s.Current(Main), s.Current(Fragment);
    assert WithoutRow(OnlyShare(), 0) == [];
    ghost var i;
    label Before:
    ok, i := s.DeleteShare(1);
    assert i == 0 by { assert OnlyShare()[0].id == 1; }
    assert old@Before(s.Publishable(WithoutRow(s.rows, 0)));
  }
}
