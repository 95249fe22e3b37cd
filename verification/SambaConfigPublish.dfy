/**
 The compare-and-swap publisher of service/samba_config_publish_linux.go.

 A pinned directory binds names to inodes.  Between any two system calls another
 actor may rebind every name except the unpredictable ones this process has drawn,
 and may edit every inode it can still reach through a name or an outside link.
 `history` records the run: own mutating calls and what the actor left behind.
 Every call may fail; a failed call raises `faults`.
 */
module SambaConfigPublish {

  type Ino = nat

  // Type, links outside the pinned directory, content and permission bits.
  datatype Inode = Inode(regular: bool, outsideLinks: nat, data: string, perm: nat)

  datatype Dir = Dir(names: map<string, Ino>, files: map<Ino, Inode>)

  // SHA-256 is injective here, so a snapshot carries the content itself.
  datatype Snapshot = Absent | Present(ino: Ino, data: string, perm: nat)

  const MAX_CONFIG_BYTES := 0x40_0000
  const PRIVATE_PERM := 0x180 // 0o600
  const QUARANTINE_MARKER := ".recasaos-quarantine-"
  const STAGING_MARKER := ".cas-"

  predicate WellFormed(d: Dir) {
    forall n | n in d.names :: d.names[n] in d.files
  }

  predicate Bound(d: Dir, i: Ino) {
    exists n | n in d.names :: d.names[n] == i
  }

  predicate SoleName(d: Dir, n: string) {
    n in d.names && forall m | m in d.names :: d.names[m] == d.names[n] ==> m == n
  }

  // Only drawn names reach the inode, so nobody else can edit it.
  predicate Private(d: Dir, drawn: set<string>, i: Ino) {
    && (forall n | n in d.names :: d.names[n] == i ==> n in drawn)
    && i in d.files && d.files[i].outsideLinks == 0
  }

  // What another actor may do between two of our calls.
  predicate Rely(d: Dir, e: Dir, drawn: set<string>) {
    && WellFormed(e)
    && (forall n | n in drawn :: (n in d.names <==> n in e.names) && (n in d.names ==> e.names[n] == d.names[n]))
    && (forall n | n in drawn && n in d.names && Private(d, drawn, d.names[n]) ::
          Private(e, drawn, d.names[n]) && e.files[d.names[n]] == d.files[d.names[n]])
  }

  lemma RelyIsReflexive(d: Dir, drawn: set<string>)
    requires WellFormed(d)
    ensures Rely(d, d, drawn)
  {
  }

  lemma RelyKeepsDrawn(d: Dir, e: Dir, drawn: set<string>, n: string)
    requires Rely(d, e, drawn) && n in drawn
    ensures (n in d.names <==> n in e.names) && (n in d.names ==> e.names[n] == d.names[n])
  {
  }

  lemma RelyIsTransitive(d: Dir, e: Dir, f: Dir, drawn: set<string>)
    requires Rely(d, e, drawn) && Rely(e, f, drawn)
    ensures Rely(d, f, drawn)
  {
    forall n | n in drawn && n in d.names && Private(d, drawn, d.names[n])
      ensures Private(f, drawn, d.names[n]) && f.files[d.names[n]] == d.files[d.names[n]]
    {
      assert e.names[n] == d.names[n];
    }
  }

  // ---------- names ----------

  predicate Contains(s: string, t: string) {
    exists i | 0 <= i <= |s| :: t <= s[i..]
  }

  predicate Marked(name: string) {
    || Contains(name, QUARANTINE_MARKER)
    || ("." <= name && Contains(name, STAGING_MARKER))
  }

  predicate HasMarked(d: Dir) {
    exists n | n in d.names :: Marked(n)
  }

  ghost predicate Occurs(part: string, s: string) {
    exists a, b :: s == a + part + b
  }

  lemma ContainsIff(s: string, part: string)
    ensures Contains(s, part) <==> Occurs(part, s)
  {
    if Contains(s, part) {
      var i :| 0 <= i <= |s| && part <= s[i..];
      assert s == s[..i] + part + s[i + |part|..];
    }
    if Occurs(part, s) {
      var a, b :| s == a + part + b;
      assert s[|a|..] == part + b;
    }
  }

  // The names of entries an administrator has to look at, letter by letter.
  ghost predicate Unresolved(name: string) {
    || Occurs(".recasaos-quarantine-", name)
    || (name != "" && name[0] == '.' && Occurs(".cas-", name))
  }

  lemma MarkedIff(name: string)
    ensures Marked(name) <==> Unresolved(name)
  {
    hide Contains, Occurs;
    ContainsIff(name, QUARANTINE_MARKER);
    ContainsIff(name, STAGING_MARKER);
  }

  lemma HasMarkedIff(d: Dir)
    ensures HasMarked(d) <==> exists n | n in d.names :: Unresolved(n)
  {
    hide Marked, Unresolved;
    forall n ensures Marked(n) <==> Unresolved(n) { MarkedIff(n); }
  }

  /** The backup that the legacy migration leaves beside a file is refused only if the name of
      the file itself would be. */
  lemma BackupIsNotRefused(base: string)
    ensures Unresolved(base + ".recasaos-legacy.bak") <==> Unresolved(base)
  {
    hide Occurs;
    NotInSuffix();
    OccursBefore(base, BackupSuffix(), ".recasaos-quarantine-");
    OccursBefore(base, BackupSuffix(), ".cas-");
    NotInEmpty(".cas-");
  }

  function BackupSuffix(): string { ".recasaos-legacy.bak" }

  lemma NotInSuffix()
    ensures BackupSuffix() == ".recasaos-legacy.bak" && |BackupSuffix()| == 20 && BackupSuffix()[0] == '.'
    ensures forall k | 0 <= k < 20 && BackupSuffix()[k] == '.' ::
              !(".recasaos-quarantine-" <= BackupSuffix()[k..]) && !(".cas-" <= BackupSuffix()[k..])
  {
    var s := BackupSuffix();
    assert s[10] == 'l' && s[1] == 'r';
    forall k | 0 <= k < 20 && s[k] == '.'
      ensures !(".recasaos-quarantine-" <= s[k..]) && !(".cas-" <= s[k..])
    {
      assert |s[k..]| < 21 && (k < 19 ==> s[k..][1] == s[k + 1] != 'c');
    }
  }

  lemma NotInEmpty(part: string)
    requires part != ""
    ensures !Occurs(part, "")
  {
  }

  // A dotted part is found in base + suffix only where it is in the base, if its only dot is
  // the first character and the suffix has none of it at its own dots.
  lemma OccursBefore(base: string, suffix: string, part: string)
    requires part != "" && part[0] == '.' && forall k | 0 < k < |part| :: part[k] != '.'
    requires suffix != "" && suffix[0] == '.'
    requires forall k | 0 <= k < |suffix| && suffix[k] == '.' :: !(part <= suffix[k..])
    ensures Occurs(part, base + suffix) <==> Occurs(part, base)
  {
    if Occurs(part, base) {
      var a, b :| base == a + part + b;
      assert base + suffix == a + part + (b + suffix);
    }
    if Occurs(part, base + suffix) {
      var a, b :| base + suffix == a + part + b;
      PartAt(base, suffix, a, part, b);
      WithinBase(base, suffix, a, part, b);
    }
  }

  lemma WithinBase(base: string, suffix: string, a: string, part: string, b: string)
    requires base + suffix == a + part + b && |a| + |part| <= |base|
    ensures Occurs(part, base)
  {
    var all := base + suffix;
    assert all[..|base|] == base && all[..|a| + |part|] == a + part;
    assert base == a + part + base[|a| + |part|..];
  }

  lemma PartAt(base: string, suffix: string, a: string, part: string, b: string)
    requires base + suffix == a + part + b && part != ""
    ensures |a| >= |base| ==> suffix[|a| - |base|] == part[0] && part <= suffix[|a| - |base|..]
    ensures |a| < |base| < |a| + |part| ==> suffix[0] == part[|base| - |a|]
  {
    var all := base + suffix;
    assert forall k | 0 <= k < |part| :: all[|a| + k] == part[k];
    if |a| >= |base| { assert suffix[|a| - |base|..] == all[|a|..] == part + b; }
    else if |base| < |a| + |part| { assert all[|base|] == suffix[0]; }
  }

  function DrawnName(marker: string, base: string, random: string): (name: string)
    requires marker == QUARANTINE_MARKER || marker == STAGING_MARKER
    ensures Marked(name) && |name| > |base| && |name| > |random|
  {
    var name := "." + base + marker + random;
    assert name[1 + |base|..] == marker + random;
    name
  }

  // ---------- runs ----------

  datatype Step =
    | Created(name: string, ino: Ino, perm: nat)
    | Rewrote(ino: Ino, before: Inode, after: Inode)
    | Moved(from: string, to: string, ino: Ino)
    | Swapped(first: string, second: string, firstIno: Ino, secondIno: Ino, displaced: Snapshot)
    | Unlinked(name: string, ino: Ino)

  datatype Event = Own(step: Step) | Actor(left: Dir)

  predicate Enabled(d: Dir, s: Step) {
    match s
    case Created(n, i, _) => n !in d.names && i !in d.files
    case Rewrote(i, b, a) => i in d.files && d.files[i] == b && a.regular == b.regular &&
      a.outsideLinks == b.outsideLinks
    case Moved(f, t, i) => f in d.names && d.names[f] == i && t !in d.names
    case Swapped(a, b, i, j, _) => a in d.names && b in d.names && a != b && d.names[a] == i && d.names[b] == j
    case Unlinked(n, i) => n in d.names && d.names[n] == i
  }

  function Apply(d: Dir, s: Step): Dir {
    match s
    case Created(n, i, p) => Dir(d.names[n := i], d.files[i := Inode(true, 0, "", p)])
    case Rewrote(i, _, a) => d.(files := d.files[i := a])
    case Moved(f, t, i) => d.(names := (d.names - {f})[t := i])
    case Swapped(a, b, i, j, _) => d.(names := d.names[a := j][b := i])
    case Unlinked(n, _) => d.(names := d.names - {n})
  }

  ghost function After(d: Dir, e: Event): Dir {
    match e
    case Own(s) => Apply(d, s)
    case Actor(left) => left
  }

  ghost function Replay(start: Dir, h: seq<Event>): Dir {
    if h == [] then start else After(Replay(start, h[..|h| - 1]), h[|h| - 1])
  }

  // How often the actor changed the directory.
  ghost function Stirs(start: Dir, h: seq<Event>): nat {
    if h == [] then 0
    else
      Stirs(start, h[..|h| - 1]) +
      if h[|h| - 1].Actor? && h[|h| - 1].left != Replay(start, h[..|h| - 1]) then 1 else 0
  }

  // Every own step of the run was possible when it was taken.
  ghost predicate LegalRun(start: Dir, h: seq<Event>) {
    h == [] || (
      && LegalRun(start, h[..|h| - 1])
      && (h[|h| - 1].Own? ==> Enabled(Replay(start, h[..|h| - 1]), h[|h| - 1].step)))
  }

  ghost function SnapshotOf(i: Ino, f: Inode): Snapshot {
    Present(i, f.data, f.perm)
  }

  // An inode this run already proved to be one of `allow` and began to erase.
  ghost predicate Condemned(h: seq<Event>, i: Ino, allow: set<Snapshot>) {
    exists j | 0 <= j < |h| ::
      h[j].Own? && h[j].step.Rewrote? && h[j].step.ino == i && SnapshotOf(i, h[j].step.before) in allow
  }

  // The run created the inode and has only written to it since.
  ghost predicate Unpublished(h: seq<Event>, i: Ino) {
    exists j | 0 <= j < |h| ::
      && h[j].Own? && h[j].step.Created? && h[j].step.ino == i
      && forall m | j < m < |h| :: h[m].Own? ==> h[m].step.Rewrote?
  }

  // Content is only ever overwritten or dropped when it is our own unpublished
  // staging file or was proved to be one of the `allow` snapshots.
  ghost predicate LawfulEvent(h: seq<Event>, e: Event, allow: set<Snapshot>) {
    e.Own? ==>
      match e.step
      case Rewrote(i, b, _) => Unpublished(h, i) || SnapshotOf(i, b) in allow || Condemned(h, i, allow)
      case Unlinked(_, i) => Condemned(h, i, allow)
      case _ => true
  }

  ghost predicate Lawful(h: seq<Event>, allow: set<Snapshot>) {
    h == [] || (Lawful(h[..|h| - 1], allow) && LawfulEvent(h[..|h| - 1], h[|h| - 1], allow))
  }

  // Own steps that changed what `target` is bound to.
  ghost function Touches(h: seq<Event>, target: string): seq<Step> {
    if h == [] then [] else
      Touches(h[..|h| - 1], target) +
      if h[|h| - 1].Own? && TouchesName(h[|h| - 1].step, target) then [h[|h| - 1].step] else []
  }

  ghost predicate TouchesName(s: Step, target: string) {
    match s
    case Created(n, _, _) => n == target
    case Rewrote(_, _, _) => false
    case Moved(f, t, _) => f == target || t == target
    case Swapped(a, b, _, _, _) => a == target || b == target
    case Unlinked(n, _) => n == target
  }

  // The names a step touches are among the given ones.
  ghost predicate StepWithin(s: Step, names: set<string>) {
    match s
    case Created(n, _, _) => n in names
    case Rewrote(_, _, _) => true
    case Moved(f, t, _) => f in names && t in names
    case Swapped(a, b, _, _, _) => a in names && b in names
    case Unlinked(n, _) => n in names
  }

  ghost predicate Within(h: seq<Event>, names: set<string>) {
    forall k | 0 <= k < |h| && h[k].Own? :: StepWithin(h[k].step, names)
  }

  // `d` is where a lawful run has got to that touched no other names.
  ghost predicate Tracked(start: Dir, h: seq<Event>, allow: set<Snapshot>, stirred: nat, d: Dir, names: set<string>) {
    && d == Replay(start, h) && LegalRun(start, h) && Lawful(h, allow) && stirred == Stirs(start, h) && Within(h, names)
  }

  lemma Extend(start: Dir, h: seq<Event>, e: Event, allow: set<Snapshot>)
    ensures Replay(start, h + [e]) == After(Replay(start, h), e)
    ensures LegalRun(start, h + [e]) <==> LegalRun(start, h) && (e.Own? ==> Enabled(Replay(start, h), e.step))
    ensures Lawful(h + [e], allow) <==> Lawful(h, allow) && LawfulEvent(h, e, allow)
    ensures Stirs(start, h + [e]) == Stirs(start, h) + if e.Actor? && e.left != Replay(start, h) then 1 else 0
  {
    assert (h + [e])[..|h|] == h;
  }

  lemma TouchesOneMore(h: seq<Event>, e: Event, target: string)
    ensures Touches(h + [e], target) == Touches(h, target) +
              if e.Own? && TouchesName(e.step, target) then [e.step] else []
  {
    assert (h + [e])[..|h|] == h;
  }

  lemma WithinOneMore(h: seq<Event>, e: Event, names: set<string>)
    requires Within(h, names) && (e.Own? ==> StepWithin(e.step, names))
    ensures Within(h + [e], names)
  {
    assert forall k | 0 <= k < |h| :: (h + [e])[k] == h[k];
  }

  lemma TrackOwn(start: Dir, h: seq<Event>, allow: set<Snapshot>, stirred: nat, d: Dir, names: set<string>, s: Step)
    requires Tracked(start, h, allow, stirred, d, names) && Enabled(d, s) && LawfulEvent(h, Own(s), allow)
    requires StepWithin(s, names)
    ensures Tracked(start, h + [Own(s)], allow, stirred, Apply(d, s), names)
  {
    hide LawfulEvent, Apply, Enabled, Within, StepWithin;
    Extend(start, h, Own(s), allow);
    WithinOneMore(h, Own(s), names);
  }

  lemma TrackActor(start: Dir, h: seq<Event>, allow: set<Snapshot>, stirred: nat, d: Dir, names: set<string>, left: Dir)
    requires Tracked(start, h, allow, stirred, d, names)
    ensures Tracked(start, h + [Actor(left)], allow, if left == d then stirred else stirred + 1, left, names)
  {
    hide Within;
    Extend(start, h, Actor(left), allow);
    WithinOneMore(h, Actor(left), names);
  }

  lemma TrackMore(start: Dir, h: seq<Event>, allow: set<Snapshot>, stirred: nat, d: Dir, names: set<string>,
                  licence: set<Snapshot>, more: set<string>)
    requires Tracked(start, h, allow, stirred, d, names) && allow <= licence && names <= more
    ensures Tracked(start, h, licence, stirred, d, more)
  {
    hide Replay, LegalRun, Stirs;
    LawfulGrows(h, allow, licence);
  }

  // A larger licence only permits more.
  lemma {:induction false} LawfulGrows(h: seq<Event>, allow: set<Snapshot>, more: set<Snapshot>)
    requires Lawful(h, allow) && allow <= more
    ensures Lawful(h, more)
  {
    if h != [] {
      LawfulGrows(h[..|h| - 1], allow, more);
    }
  }

  // Someone other than this call unbound the inode or changed its content.
  ghost predicate ActorTook(start: Dir, h: seq<Event>, m: nat, i: Ino, f: Inode)
    requires m < |h|
  {
    h[m].Actor? && !(Bound(h[m].left, i) && i in h[m].left.files && h[m].left.files[i] == f)
  }

  // This call did, and it was entitled to.
  ghost predicate Excused(h: seq<Event>, m: nat, i: Ino, f: Inode, allow: set<Snapshot>)
    requires m < |h|
  {
    && h[m].Own? && (h[m].step.Rewrote? || h[m].step.Unlinked?) && h[m].step.ino == i
    && (Unpublished(h[..m], i) || SnapshotOf(i, f) in allow || Condemned(h[..m], i, allow))
  }

  /** Nothing foreign is ever lost: an inode that held `f` at any point of a lawful run
      still does at the end, unless another actor took it away or it is this call's own
      staging file or one of the `allow` snapshots. */
  lemma {:induction false} NothingForeignIsLost(start: Dir, h: seq<Event>, k: nat, i: Ino, f: Inode,
                                                allow: set<Snapshot>)
    requires k <= |h| && LegalRun(start, h) && Lawful(h, allow)
    requires var d := Replay(start, h[..k]); Bound(d, i) && i in d.files && d.files[i] == f
    ensures
      || (var d := Replay(start, h); Bound(d, i) && i in d.files && d.files[i] == f)
      || (exists m | k <= m < |h| :: ActorTook(start, h, m, i, f) || Excused(h, m, i, f, allow))
    decreases |h| - k
  {
    if k == |h| {
      assert h[..k] == h;
    } else {
      var d, e := Replay(start, h[..k]), h[k];
      assert h[..k + 1] == h[..k] + [e];
      Extend(start, h[..k], e, allow);
      PrefixIsLawful(start, h, k + 1, allow);
      if ActorTook(start, h, k, i, f) || Excused(h, k, i, f, allow) {
      } else {
        if e.Own? { OwnStepKeeps(d, e.step, i, f); }
        NothingForeignIsLost(start, h, k + 1, i, f, allow);
      }
    }
  }

  /** So a publish or removal leaves alone every inode it neither created nor was told to replace. */
  lemma ForeignSurvives(start: Dir, h: seq<Event>, k: nat, i: Ino, f: Inode, allow: set<Snapshot>)
    requires k <= |h| && LegalRun(start, h) && Lawful(h, allow)
    requires var d := Replay(start, h[..k]); Bound(d, i) && i in d.files && d.files[i] == f
    requires forall s | s in allow && s.Present? :: s.ino != i
    requires forall m | 0 <= m < |h| && h[m].Own? && h[m].step.Created? :: h[m].step.ino != i
    requires forall m | k <= m < |h| :: !ActorTook(start, h, m, i, f)
    ensures var d := Replay(start, h); Bound(d, i) && i in d.files && d.files[i] == f
  {
    NothingForeignIsLost(start, h, k, i, f, allow);
    forall m | k <= m < |h|
      ensures !Excused(h, m, i, f, allow)
    {
      assert forall j | 0 <= j < m :: h[..m][j] == h[j];
      assert SnapshotOf(i, f) !in allow;
      assert forall g: Inode :: SnapshotOf(i, g) !in allow;
    }
  }

  lemma {:induction false} PrefixIsLawful(start: Dir, h: seq<Event>, k: nat, allow: set<Snapshot>)
    requires k <= |h| && LegalRun(start, h) && Lawful(h, allow)
    ensures LegalRun(start, h[..k]) && Lawful(h[..k], allow)
  {
    if k < |h| {
      assert h[..|h| - 1][..k] == h[..k];
      PrefixIsLawful(start, h[..|h| - 1], k, allow);
    } else {
      assert h[..k] == h;
    }
  }

  // Renames and exchanges drop no inode; the others touch only the inode they name.
  lemma OwnStepKeeps(d: Dir, s: Step, i: Ino, f: Inode)
    requires Enabled(d, s) && Bound(d, i) && i in d.files && d.files[i] == f
    requires (s.Rewrote? || s.Unlinked?) ==> s.ino != i
    ensures var e := Apply(d, s); Bound(e, i) && i in e.files && e.files[i] == f
  {
    var n :| n in d.names && d.names[n] == i;
    var e := Apply(d, s);
    match s
    case Moved(from, to, _) => assert e.names[if n == from then to else n] == i;
    case Swapped(a, b, _, _, _) => assert e.names[if n == a then b else if n == b then a else n] == i;
    case _ => assert e.names[n] == i;
  }

  // ---------- the pinned directory ----------

  // `name` holds exactly `s`, out of everybody else's reach.
  ghost predicate Holds(d: Dir, drawn: set<string>, name: string, s: Snapshot) {
    && s.Present? && name in d.names && d.names[name] == s.ino
    && SoleName(d, name) && Private(d, drawn, s.ino)
    && d.files[s.ino] == Inode(true, 0, s.data, s.perm)
  }

  predicate Readable(d: Dir, name: string) {
    && SoleName(d, name) && d.names[name] in d.files
    && var f := d.files[d.names[name]];
       f.regular && f.outsideLinks == 0 && |f.data| <= MAX_CONFIG_BYTES
  }

  ghost predicate Current(d: Dir, name: string, s: Snapshot) {
    && Readable(d, name) && s == SnapshotOf(d.names[name], d.files[d.names[name]])
  }

  ghost predicate SameFiles(d: Dir, e: Dir, except: set<Ino>) {
    forall i | i in d.files && i !in except :: i in e.files && e.files[i] == d.files[i]
  }

  lemma HoldsIsStable(d: Dir, e: Dir, drawn: set<string>, name: string, s: Snapshot)
    requires name in drawn && Holds(d, drawn, name, s) && Rely(d, e, drawn)
    ensures Holds(e, drawn, name, s)
  {
    assert Private(e, drawn, d.names[name]);
  }

  // `name` is as it was, or gone, or what it named is under a drawn name instead.
  ghost predicate Shuffled(d: Dir, e: Dir, name: string, drawn: set<string>) {
    || e.names == d.names || e.names == d.names - {name}
    || (name in d.names && exists q | q in drawn :: q !in d.names && e.names == (d.names - {name})[q := d.names[name]])
  }

  lemma MovedFiles(d: Dir, e: Dir, name: string, drawn: set<string>)
    ensures MovedAway(d, e, name, drawn) ==> e.files == d.files
  {
  }

  lemma Unshuffled(d: Dir, name: string)
    ensures forall drawn :: Shuffled(d, d, name, drawn)
  {
  }

  lemma ShuffledOnce(d: Dir, e: Dir, name: string, q: string, drawn: set<string>)
    requires name in d.names && q !in d.names && q in drawn && e == Apply(d, Moved(name, q, d.names[name]))
    ensures Shuffled(d, e, name, drawn) && e.files == d.files
  {
  }

  lemma ShuffledBack(d: Dir, e: Dir, f: Dir, name: string, q: string, drawn: set<string>)
    requires name in d.names && q !in d.names && q in drawn && e == Apply(d, Moved(name, q, d.names[name]))
    requires f == e || f == Apply(e, Moved(q, name, d.names[name]))
    ensures Shuffled(d, f, name, drawn) && f.files == d.files
  {
    if f == e { ShuffledOnce(d, e, name, q, drawn); } else { assert f.names == d.names; }
  }

  // Moved to q, and then perhaps gone.
  lemma ShuffledGone(d: Dir, e: Dir, f: Dir, name: string, q: string, drawn: set<string>)
    requires name in d.names && q !in d.names && q in drawn && e == Apply(d, Moved(name, q, d.names[name]))
    requires f.names == e.names || f.names == e.names - {q}
    ensures Shuffled(d, f, name, drawn)
  {
    if f.names == e.names - {q} { assert f.names == d.names - {name}; }
  }

  lemma ShuffledTwice(d: Dir, e: Dir, f: Dir, name: string, drawn: set<string>, more: set<string>)
    requires Shuffled(d, e, name, drawn) && drawn <= more && name in drawn
    requires f == e || MovedAway(e, f, name, more) || f.names == e.names
    ensures Shuffled(d, f, name, more)
  {
    if e.names == d.names && MovedAway(e, f, name, more) {
      var q :| q in more && q !in e.names && f == Apply(e, Moved(name, q, e.names[name]));
      assert f.names == (d.names - {name})[q := d.names[name]];
    } else if e.names != d.names && e.names != d.names - {name} {
      var q :| q in drawn && q !in d.names && e.names == (d.names - {name})[q := d.names[name]];
      assert q in more;
      assert name !in e.names || q == name;
    }
  }

  lemma ShuffledAbsent(d: Dir, e: Dir, name: string, drawn: set<string>, target: string)
    requires Shuffled(d, e, name, drawn) && target !in drawn && target != name
    ensures target in e.names <==> target in d.names
  {
  }

  // A snapshot under another name stays current.
  lemma ShuffledKeeps(d: Dir, e: Dir, name: string, drawn: set<string>, target: string, s: Snapshot, except: Ino)
    requires Shuffled(d, e, name, drawn) && SameFiles(d, e, {except}) && Current(d, target, s) && s.Present?
    requires s.ino != except
    requires target != name && target !in drawn && (name in d.names ==> d.names[name] != s.ino)
    ensures Current(e, target, s) && e.names[target] == d.names[target]
  {
    assert forall n | n in e.names && e.names[n] == s.ino :: n == target;
  }

  // What `base` named is now under a drawn name instead, and nothing else changed.
  ghost predicate MovedAway(d: Dir, e: Dir, base: string, drawn: set<string>) {
    base in d.names && exists q | q in drawn :: q !in d.names && e == Apply(d, Moved(base, q, d.names[base]))
  }

  // Only the given names may be bound differently.
  ghost predicate OthersKeep(d: Dir, e: Dir, names: set<string>) {
    forall n | n !in names :: Keeps(d, e, n)
  }

  ghost predicate Keeps(d: Dir, e: Dir, n: string) {
    (n in e.names <==> n in d.names) && (n in d.names ==> e.names[n] == d.names[n])
  }

  // The names a call draws carry a mark and are longer than the target's.
  ghost predicate Drawn(drawn: set<string>, target: string) {
    forall n | n in drawn :: Marked(n) && |n| > |target|
  }

  lemma DrawOne(drawn: set<string>, target: string, name: string)
    requires Drawn(drawn, target) && Marked(name) && |name| > |target|
    ensures Drawn(drawn + {name}, target)
  {
    hide Marked;
  }

  lemma TargetIsNotDrawn(drawn: set<string>, target: string)
    requires Drawn(drawn, target)
    ensures target !in drawn
  {
    hide Marked;
  }

  lemma DrawnIsLonger(drawn: set<string>, target: string, name: string)
    requires Drawn(drawn, target) && name in drawn
    ensures |name| > |target| && Marked(name)
  {
    hide Marked;
  }

  /** While nobody else changes the directory and no own step touches `target`, every name the
      call has not drawn keeps its binding. */
  lemma {:induction false} SpanKeeps(start: Dir, h: seq<Event>, k: nat, drawn: set<string>, target: string, n: string)
    requires k <= |h| && LegalRun(start, h) && Within(h, drawn + {target}) && n !in drawn
    requires Stirs(start, h[..k]) == Stirs(start, h) && (n == target ==> Touches(h[..k], target) == Touches(h, target))
    ensures Keeps(Replay(start, h[..k]), Replay(start, h), n)
    decreases |h|
  {
    if k == |h| {
      assert h[..k] == h;
    } else {
      var m := |h| - 1;
      var g := h[..m];
      assert g[..k] == h[..k] && h == g + [h[m]];
      assert forall i | 0 <= i < m :: g[i] == h[i];
      StirsGrow(start, g, k);
      TouchesOneMore(g, h[m], target);
      TouchesGrow(g, k, target);
      SpanKeeps(start, g, k, drawn, target, n);
      assert h[m].Own? ==> StepWithin(h[m].step, drawn + {target});
    }
  }

  lemma {:induction false} StirsGrow(start: Dir, h: seq<Event>, k: nat)
    requires k <= |h|
    ensures Stirs(start, h[..k]) <= Stirs(start, h)
  {
    if k < |h| {
      StirsGrow(start, h[..|h| - 1], k);
      assert h[..|h| - 1][..k] == h[..k];
    } else {
      assert h[..k] == h;
    }
  }

  lemma {:induction false} TouchesGrow(h: seq<Event>, k: nat, target: string)
    requires k <= |h|
    ensures |Touches(h[..k], target)| <= |Touches(h, target)|
    ensures |Touches(h[..k], target)| == |Touches(h, target)| ==> Touches(h[..k], target) == Touches(h, target)
  {
    if k < |h| {
      TouchesGrow(h[..|h| - 1], k, target);
      assert h[..|h| - 1][..k] == h[..k];
    } else {
      assert h[..k] == h;
    }
  }

  lemma SpansKeep(start: Dir, h: seq<Event>, k: nat, allow: set<Snapshot>, stirred: nat, d: Dir, e: Dir,
                  drawn: set<string>, target: string)
    requires k <= |h| && Tracked(start, h, allow, stirred, e, drawn + {target}) && d == Replay(start, h[..k])
    requires Stirs(start, h[..k]) == stirred
    ensures OthersKeep(d, e, drawn + {target})
    ensures Touches(h[..k], target) == Touches(h, target) ==> OthersKeep(d, e, drawn)
  {
    hide Replay, LegalRun, Lawful, Touches, Stirs, Within, Keeps;
    forall n | n !in drawn && (n == target ==> Touches(h[..k], target) == Touches(h, target)) ensures Keeps(d, e, n) {
      SpanKeeps(start, h, k, drawn, target, n);
    }
  }

  // No own step touches n.
  ghost predicate Spares(h: seq<Event>, n: string) {
    forall k | 0 <= k < |h| && h[k].Own? :: !TouchesName(h[k].step, n)
  }

  lemma {:induction false} UntouchedIsSpared(h: seq<Event>, target: string)
    requires Touches(h, target) == []
    ensures Spares(h, target)
  {
    if h != [] {
      var g := h[..|h| - 1];
      assert h == g + [h[|h| - 1]] && forall k | 0 <= k < |g| :: g[k] == h[k];
      TouchesOneMore(g, h[|h| - 1], target);
      UntouchedIsSpared(g, target);
    }
  }

  lemma OtherIsSpared(h: seq<Event>, names: set<string>, n: string)
    requires Within(h, names) && n !in names
    ensures Spares(h, n)
  {
  }

  // While nobody else acts, a spared name keeps its inode, and keeps it for itself.
  lemma {:induction false} SparedStays(start: Dir, h: seq<Event>, n: string)
    requires WellFormed(start) && LegalRun(start, h) && Stirs(start, h) == 0 && Spares(h, n)
    ensures WellFormed(Replay(start, h)) && Keeps(start, Replay(start, h), n)
    ensures SoleName(start, n) ==> SoleName(Replay(start, h), n)
    ensures forall i | i in start.files :: i in Replay(start, h).files
    decreases |h|
  {
    if h != [] {
      var g := h[..|h| - 1];
      assert h == g + [h[|h| - 1]] && forall k | 0 <= k < |g| :: g[k] == h[k];
      SparedStays(start, g, n);
      SparedStep(Replay(start, g), h[|h| - 1], n);
    }
  }

  lemma SparedStep(d: Dir, e: Event, n: string)
    requires WellFormed(d) && (e.Own? ==> Enabled(d, e.step) && !TouchesName(e.step, n)) && (e.Actor? ==> e.left == d)
    ensures var f := After(d, e);
            && WellFormed(f) && Keeps(d, f, n) && (SoleName(d, n) ==> SoleName(f, n))
            && forall i | i in d.files :: i in f.files
  {
  }

  // While nobody else acts, only the licensed inodes and the run's own are written to.
  lemma {:induction false} FilesStay(start: Dir, h: seq<Event>, allow: set<Snapshot>, i: Ino)
    requires WellFormed(start) && LegalRun(start, h) && Stirs(start, h) == 0 && Lawful(h, allow) && i in start.files
    requires forall s | s in allow && s.Present? :: s.ino != i
    ensures i in Replay(start, h).files && Replay(start, h).files[i] == start.files[i]
    decreases |h|
  {
    if h != [] {
      var g, e := h[..|h| - 1], h[|h| - 1];
      FilesStay(start, g, allow, i);
      if e.Own? && e.step.Rewrote? && e.step.ino == i {
        if Unpublished(g, i) {
          var j :| 0 <= j < |g| && g[j].Own? && g[j].step.Created? && g[j].step.ino == i;
          CreatedIsNew(start, g, j);
        }
        assert false;
      }
    }
  }

  lemma {:induction false} CreatedIsNew(start: Dir, h: seq<Event>, j: nat)
    requires WellFormed(start) && LegalRun(start, h) && Stirs(start, h) == 0 && j < |h| && h[j].Own?
    requires h[j].step.Created?
    ensures h[j].step.ino !in start.files
    decreases |h|
  {
    var g := h[..|h| - 1];
    if j == |g| { FilesGrow(start, g); } else { CreatedIsNew(start, g, j); }
  }

  lemma {:induction false} FilesGrow(start: Dir, h: seq<Event>)
    requires Stirs(start, h) == 0
    ensures forall i | i in start.files :: i in Replay(start, h).files
    decreases |h|
  {
    if h != [] { FilesGrow(start, h[..|h| - 1]); }
  }

  // Every other snapshot stays current whose name is unmarked and whose inode is not licensed.
  ghost predicate OthersStand(d: Dir, e: Dir, target: string, expected: Snapshot) {
    forall n, t: Snapshot | n != target && !Marked(n) && t.Present? && (expected.Present? ==> t.ino != expected.ino) &&
      Current(d, n, t) ::
      Current(e, n, t)
  }

  lemma KeepsName(d: Dir, e: Dir, n: string)
    requires Keeps(d, e, n)
    ensures n in e.names <==> n in d.names
  {
  }

  lemma CurrentFacts(d: Dir, n: string, t: Snapshot)
    requires Current(d, n, t)
    ensures t.Present? && SoleName(d, n) && t.ino in d.files
  {
  }

  lemma CurrentStays(d: Dir, e: Dir, n: string, t: Snapshot)
    requires Current(d, n, t) && t.Present? && Keeps(d, e, n) && SoleName(e, n) && t.ino in e.files
    requires e.files[t.ino] == d.files[t.ino]
    ensures Current(e, n, t)
  {
  }

  // ---------- what a read saw ----------

  // The actor changed what inode i holds.
  ghost predicate EditAt(start: Dir, h: seq<Event>, m: nat, i: Ino)
    requires m < |h|
  {
    var d := Replay(start, h[..m]);
    h[m].Actor? && i in d.files && !(i in h[m].left.files && h[m].left.files[i] == d.files[i])
  }

  ghost predicate Edited(start: Dir, h: seq<Event>, from: nat, i: Ino) {
    exists m: nat | from <= m < |h| :: EditAt(start, h, m, i)
  }

  lemma EditedStays(start: Dir, h: seq<Event>, more: seq<Event>, from: nat, i: Ino)
    requires h <= more && Edited(start, h, from, i)
    ensures Edited(start, more, from, i)
  {
    hide Replay;
    var m: nat :| from <= m < |h| && EditAt(start, h, m, i);
    assert more[..m] == h[..m] && more[m] == h[m];
    assert EditAt(start, more, m, i);
  }

  lemma EditNow(start: Dir, h: seq<Event>, left: Dir, from: nat, i: Ino)
    requires from <= |h| && i in Replay(start, h).files
    requires !(i in left.files && left.files[i] == Replay(start, h).files[i])
    ensures Edited(start, h + [Actor(left)], from, i)
  {
    hide Replay;
    assert (h + [Actor(left)])[..|h|] == h;
    assert EditAt(start, h + [Actor(left)], |h|, i);
  }

  // At some moment from `from` on `name` was the only name of the regular file s tells about,
  // and the content is that of the same moment unless the actor edited the file afterwards.
  ghost predicate Seen(start: Dir, h: seq<Event>, from: nat, name: string, s: Snapshot) {
    exists m: nat | from <= m < |h| :: SeenAt(start, h, m, name, s)
  }

  ghost predicate SeenAt(start: Dir, h: seq<Event>, m: nat, name: string, s: Snapshot)
    requires m < |h|
  {
    && h[m].Actor? && s.Present? && Unshared(h[m].left, name) && h[m].left.names[name] == s.ino
    && var f := h[m].left.files[s.ino];
       f.perm == s.perm && (f.data == s.data || Edited(start, h, m + 1, s.ino))
  }

  predicate Unshared(d: Dir, name: string) {
    && SoleName(d, name) && d.names[name] in d.files
    && var f := d.files[d.names[name]]; f.regular && f.outsideLinks == 0
  }

  lemma ReadableIsUnshared(d: Dir, name: string)
    ensures Readable(d, name) <==> Unshared(d, name) && |d.files[d.names[name]].data| <= MAX_CONFIG_BYTES
  {
  }

  lemma UnsharedFile(d: Dir, name: string)
    requires Unshared(d, name)
    ensures name in d.names && d.names[name] in d.files
    ensures |d.files[d.names[name]].data| <= MAX_CONFIG_BYTES ==>
              Current(d, name, SnapshotOf(d.names[name], d.files[d.names[name]]))
  {
  }

  // A read saw the directory at `stat`, opened the file at `fstat` and read it at `read`.
  lemma ReadSeen(start: Dir, h: seq<Event>, stat: Dir, fstat: Dir, read: Dir, name: string, s: Snapshot)
    requires s.Present? && Unshared(fstat, name) && fstat.names[name] == s.ino && fstat.files[s.ino].perm == s.perm
    requires s.ino in read.files ==> s.data == read.files[s.ino].data
    ensures var all := h + [Actor(stat)] + [Actor(fstat)] + [Actor(read)];
            Seen(start, all, |h|, name, s)
  {
    var two := h + [Actor(stat)] + [Actor(fstat)];
    var all := two + [Actor(read)];
    Extend(start, h + [Actor(stat)], Actor(fstat), {});
    hide Replay;
    if fstat.files[s.ino].data != s.data { EditNow(start, two, read, |two|, s.ino); }
    assert all[|h| + 1] == Actor(fstat);
    assert SeenAt(start, all, |h| + 1, name, s);
  }

  // A file read under a drawn name is out of everybody else's reach.
  lemma ReadDrawn(d: Dir, stat: Dir, fstat: Dir, read: Dir, drawn: set<string>, name: string, s: Snapshot)
    requires WellFormed(d) && Rely(d, stat, drawn) && Rely(stat, fstat, drawn) && Rely(fstat, read, drawn)
    requires name in drawn
    requires s.Present? && Unshared(fstat, name) && fstat.names[name] == s.ino && fstat.files[s.ino].perm == s.perm
    requires s.ino in read.files ==> s.data == read.files[s.ino].data
    ensures Holds(read, drawn, name, s) && s.ino in stat.files
    ensures (name in d.names ==> s.ino == d.names[name] && s.ino in d.files)
  {
    HoldsIsStable(fstat, read, drawn, name, SnapshotOf(s.ino, fstat.files[s.ino]));
  }

  lemma TrackedHere(start: Dir, h: seq<Event>, allow: set<Snapshot>, stirred: nat, d: Dir, names: set<string>)
    requires Tracked(start, h, allow, stirred, d, names)
    ensures d == Replay(start, h) && stirred == Stirs(start, h)
  {
  }

  // What a read of inode i tells is what it held before, unless the actor edited it.
  lemma ReadUnlessEdited(start: Dir, h: seq<Event>, stat: Dir, fstat: Dir, read: Dir, s: Snapshot)
    requires s.Present? && s.ino in Replay(start, h).files && s.ino in stat.files && s.ino in fstat.files
    requires fstat.files[s.ino].perm == s.perm && (s.ino in read.files ==> s.data == read.files[s.ino].data)
    ensures var all := h + [Actor(stat)] + [Actor(fstat)] + [Actor(read)];
            s == SnapshotOf(s.ino, Replay(start, h).files[s.ino]) || Edited(start, all, |h|, s.ino)
  {
    var one := h + [Actor(stat)];
    var two := one + [Actor(fstat)];
    var all := two + [Actor(read)];
    Extend(start, h, Actor(stat), {});
    Extend(start, one, Actor(fstat), {});
    var d := Replay(start, h);
    hide Replay;
    if stat.files[s.ino] != d.files[s.ino] {
      EditNow(start, h, stat, |h|, s.ino);
      EditedStays(start, one, all, |h|, s.ino);
    } else if fstat.files[s.ino] != stat.files[s.ino] {
      EditNow(start, one, fstat, |h|, s.ino);
      EditedStays(start, two, all, |h|, s.ino);
    } else if !(s.ino in read.files && read.files[s.ino] == fstat.files[s.ino]) {
      EditNow(start, two, read, |h|, s.ino);
    }
  }

  class ConfigDirectory {
    var dir: Dir
    var drawn: set<string>         // names this call took at random
    ghost var stirred: nat         // times another actor changed the directory
    const alone: bool              // no other actor is at work, and at most
    var allowance: nat             // so many more calls fail
    ghost var start: Dir           // the directory when the call began
    ghost var history: seq<Event>
    ghost var faults: nat          // calls that failed so far
    ghost var allow: set<Snapshot> // what this call may erase
    var target: string             // the base name being published

    ghost predicate Valid()
      reads this
    {
      WellFormed(dir) && Tracked(start, history, allow, stirred, dir, drawn + {target}) && Drawn(drawn, target)
    }

    twostate predicate SameCall()
      reads this
    {
      SameTarget() && allow == old(allow)
    }

    twostate predicate SameTarget()
      reads this
    {
      && start == old(start) && target == old(target)
      && old(drawn) <= drawn && old(faults) <= faults && old(history) <= history
      && old(stirred) <= stirred && (alone ==> Calm() && faults + allowance == old(faults) + old(allowance))
    }

    ghost function Touched(): seq<Step>
      reads this
    {
      Touches(history, target)
    }

    // Nobody else changed the directory in between.
    twostate predicate Calm()
      reads this
    {
      stirred == old(stirred)
    }

    constructor (d: Dir, alone: bool, allowance: nat)
      requires WellFormed(d)
      ensures Valid() && dir == d && this.alone == alone && this.allowance == allowance
    {
      dir, drawn, this.alone, this.allowance := d, {}, alone, allowance;
      start, history, faults, stirred, allow, target := d, [], 0, 0, {}, "";
    }

    // Another actor takes its turn.
    method Interfere()
      requires Valid()
      modifies this`dir, this`history, this`stirred
      ensures Valid() && SameCall() && drawn == old(drawn) && faults == old(faults)
      ensures Rely(old(dir), dir, drawn) && (Calm() <==> dir == old(dir))
      ensures history == old(history) + [Actor(dir)] && Touched() == old(Touched())
    {
      hide Tracked, Drawn, Touches;
      var left: Dir := *;
      if alone || !Rely(dir, left, drawn) {
        left := dir;
        RelyIsReflexive(dir, drawn);
      }
      TrackActor(start, history, allow, stirred, dir, drawn + {target}, left);
      TouchesOneMore(history, Actor(left), target);
      if left != dir { stirred := stirred + 1; }
      dir := left;
      history := history + [Actor(left)];
    }

    // The outcome the kernel chooses for a call that is otherwise possible.
    method Syscall() returns (ok: bool)
      requires Valid()
      modifies this`faults, this`allowance
      ensures Valid() && SameCall() && (faults == old(faults) <==> ok)
    {
      ok := *;
      if alone && allowance == 0 { ok := true; }
      if !ok { Fail(); }
    }

    method Fail()
      requires alone ==> allowance > 0
      modifies this`faults, this`allowance
      ensures faults == old(faults) + 1 && (alone ==> allowance == old(allowance) - 1)
    {
      faults := faults + 1;
      if alone { allowance := allowance - 1; }
    }

    ghost method Record(was: Dir, s: Step)
      requires WellFormed(dir) && Tracked(start, history, allow, stirred, was, drawn + {target}) && Drawn(drawn, target)
      requires Enabled(was, s) && dir == Apply(was, s) && LawfulEvent(history, Own(s), allow)
      requires StepWithin(s, drawn + {target})
      modifies this`history
      ensures Valid() && history == old(history) + [Own(s)]
      ensures Touched() == old(Touched()) + if TouchesName(s, target) then [s] else []
    {
      hide Tracked, Drawn, Touches, LawfulEvent, Enabled, Apply, StepWithin;
      TrackOwn(start, history, allow, stirred, was, drawn + {target}, s);
      TouchesOneMore(history, Own(s), target);
      history := history + [Own(s)];
    }

    // renameat2(RENAME_NOREPLACE)
    method RenameNoReplace(from: string, to: string) returns (ok: bool)
      requires Valid() && (from in drawn || from == target) && (to in drawn || to == target)
      modifies this`dir, this`faults, this`allowance, this`history
      ensures Valid() && SameCall()
      ensures ok ==> from in old(dir).names && to !in old(dir).names
      ensures ok ==> var s := Moved(from, to, old(dir).names[from]);
                     && dir == Apply(old(dir), s) && history == old(history) + [Own(s)]
                     && Touched() == old(Touched()) + if TouchesName(s, target) then [s] else []
      ensures !ok ==> dir == old(dir) && history == old(history)
      ensures (ok ==> faults == old(faults))
      ensures (faults == old(faults) && from in old(dir).names && to !in old(dir).names ==> ok)
    {
      hide Tracked, Drawn, Touches;
      if from !in dir.names || to in dir.names { return false; }
      ok := Syscall();
      if ok {
        var i := dir.names[from];
        dir := Apply(dir, Moved(from, to, i));
        Record(old(dir), Moved(from, to, i));
      }
    }

    // renameat2(RENAME_EXCHANGE)
    method RenameExchange(first: string, second: string) returns (ok: bool)
      requires Valid() && first != second && first in drawn && second == target
      modifies this`dir, this`faults, this`allowance, this`history
      ensures Valid() && SameCall()
      ensures ok ==> first in old(dir).names && second in old(dir).names
      ensures ok ==> var i, j := old(dir).names[first], old(dir).names[second];
                     var s := Swapped(first, second, i, j, SnapshotOf(j, old(dir).files[j]));
                     && dir == Apply(old(dir), s) && history == old(history) + [Own(s)]
                     && Touched() == old(Touched()) + if TouchesName(s, target) then [s] else []
      ensures !ok ==> dir == old(dir) && history == old(history)
      ensures (ok ==> faults == old(faults))
      ensures (faults == old(faults) && first in old(dir).names && second in old(dir).names ==> ok)
    {
      hide Tracked, Drawn, Touches;
      if first !in dir.names || second !in dir.names { return false; }
      ok := Syscall();
      if ok {
        var i, j := dir.names[first], dir.names[second];
        ghost var s := Swapped(first, second, i, j, SnapshotOf(j, dir.files[j]));
        dir := dir.(names := dir.names[first := j][second := i]);
        Record(old(dir), s);
      }
    }

    // unlinkat of an inode this call already condemned
    method Unlink(name: string) returns (ok: bool)
      requires Valid() && name in drawn && (name in dir.names ==> Condemned(history, dir.names[name], allow))
      modifies this`dir, this`faults, this`allowance, this`history
      ensures Valid() && SameCall()
      ensures ok ==> name in old(dir).names && dir == Apply(old(dir), Unlinked(name, old(dir).names[name]))
      ensures ok ==> history == old(history) + [Own(Unlinked(name, old(dir).names[name]))]
      ensures !ok ==> dir == old(dir) && history == old(history)
      ensures name != target ==> Touched() == old(Touched())
      ensures (ok ==> faults == old(faults)) && (faults == old(faults) && name in old(dir).names ==> ok)
    {
      hide Tracked, Drawn, Touches;
      if name !in dir.names { return false; }
      ok := Syscall();
      if ok {
        var i := dir.names[name];
        dir := Apply(dir, Unlinked(name, i));
        Record(old(dir), Unlinked(name, i));
      }
    }

    // ftruncate, fchmod or write through an open descriptor of inode i
    method Rewrite(i: Ino, after: Inode) returns (ok: bool)
      requires Valid() && i in dir.files
      requires after.regular == dir.files[i].regular && after.outsideLinks == dir.files[i].outsideLinks
      requires Unpublished(history, i) || SnapshotOf(i, dir.files[i]) in allow || Condemned(history, i, allow)
      modifies this`dir, this`faults, this`allowance, this`history
      ensures Valid() && SameCall() && Touched() == old(Touched())
      ensures ok ==> dir == old(dir).(files := old(dir).files[i := after])
      ensures ok ==> history == old(history) + [Own(Rewrote(i, old(dir).files[i], after))]
      ensures !ok ==> dir == old(dir) && history == old(history)
      ensures faults == old(faults) <==> ok
    {
      hide Tracked, Drawn, Touches;
      ok := Syscall();
      if ok {
        ghost var s := Rewrote(i, dir.files[i], after);
        dir := dir.(files := dir.files[i := after]);
        Record(old(dir), s);
      }
    }

    // readSnapshot with required = true: stat, open and fstat, then read the descriptor
    method ReadSnapshot(name: string) returns (ok: bool, s: Snapshot)
      requires Valid()
      modifies this`dir, this`faults, this`allowance, this`history, this`stirred
      ensures Valid() && SameCall() && Touched() == old(Touched())
      ensures Rely(old(dir), dir, drawn)
      ensures ok ==> s.Present? && |s.data| <= MAX_CONFIG_BYTES && Seen(start, history, |old(history)|, name, s)
      ensures ok && name in drawn ==> Holds(dir, drawn, name, s)
      ensures ok && name in drawn && name in old(dir).names ==>
                && s.ino == old(dir).names[name]
                && (s == SnapshotOf(s.ino, old(dir).files[s.ino]) || Edited(start, history, |old(history)|, s.ino))
      ensures Calm() ==> dir == old(dir) && (ok ==> Current(dir, name, s))
      ensures (ok ==> faults == old(faults)) && (Calm() && faults == old(faults) && Readable(dir, name) ==> ok)
    {
      hide Tracked, Drawn, Touches, Seen, Edited, Private, Rely, Holds, WellFormed, Unshared;
      s := Absent;
      var i, perm;
      ghost var d1, d2;
      ok, i, perm, d1, d2 := OpenFile(name);
      if Calm() { ReadableIsUnshared(dir, name); }
      if !ok { return; }
      Interfere();
      RelyIsTransitive(old(dir), d2, dir, drawn);
      var data: string := *;
      if i in dir.files { data := dir.files[i].data; }
      UnsharedFile(d2, name);
      if |data| > MAX_CONFIG_BYTES { return false, Absent; }
      ok := Syscall();
      s := Present(i, data, perm);
      ReadSeen(start, old(history), d1, d2, dir, name, s);
      if name in drawn { ReadDrawn(old(dir), d1, d2, dir, drawn, name, s); }
      if name in drawn && name in old(dir).names {
        TrackedHere(start, old(history), allow, old(stirred), old(dir), drawn + {target});
        ReadUnlessEdited(start, old(history), d1, d2, dir, s);
      }
    }

    // stat, then open and fstat
    method OpenFile(name: string) returns (ok: bool, i: Ino, perm: nat, ghost stat: Dir, ghost fstat: Dir)
      requires Valid()
      modifies this`dir, this`faults, this`allowance, this`history, this`stirred
      ensures Valid() && SameCall() && Touched() == old(Touched()) && Rely(old(dir), dir, drawn)
      ensures (Calm() ==> dir == old(dir))
      ensures ok ==>
                && history == old(history) + [Actor(stat)] + [Actor(fstat)] && dir == fstat
                && Rely(old(dir), stat, drawn) && Rely(stat, fstat, drawn)
                && Unshared(fstat, name) && fstat.names[name] == i && fstat.files[i].perm == perm
      ensures (ok ==> faults == old(faults)) && (Calm() && faults == old(faults) && Unshared(dir, name) ==> ok)
    {
      hide Tracked, Drawn, Touches, Private, Rely, WellFormed;
      i, perm := 0, 0;
      Interfere();
      stat, fstat := dir, dir;
      if !Unshared(dir, name) { return false, i, perm, stat, fstat; }
      i := dir.names[name];
      ok := Syscall();
      if !ok { return; }
      Interfere();
      fstat := dir;
      RelyIsTransitive(old(dir), stat, fstat, drawn);
      if !Unshared(dir, name) || dir.names[name] != i { return false, i, perm, stat, fstat; }
      perm := dir.files[i].perm;
      ok := Syscall();
    }

    method DrawName(marker: string, base: string) returns (name: string)
      requires marker == QUARANTINE_MARKER || marker == STAGING_MARKER
      ensures Marked(name) && |name| > |base|
      ensures alone ==> name !in dir.names
    {
      var random: string := *;
      if alone { random := LongerThanAll(dir.names.Keys); }
      name := DrawnName(marker, base, random);
    }

    // randomQuarantineName: sixteen draws until one is free
    method RandomQuarantineName(base: string) returns (ok: bool, name: string)
      requires Valid() && |base| >= |target|
      modifies this`dir, this`faults, this`allowance, this`history, this`stirred, this`drawn
      ensures Valid() && SameCall() && Touched() == old(Touched())
      ensures ok ==> name in drawn && name !in dir.names && |name| > |base|
      ensures Calm() ==> dir == old(dir)
      ensures faults == old(faults) ==> ok
      ensures alone && ok ==> faults == old(faults)
    {
      hide Tracked, Drawn, Touches, Marked;
      ok, name := false, "";
      var attempt := 0;
      while attempt < 16
        invariant Valid() && SameCall() && Touched() == old(Touched()) && drawn == old(drawn)
        invariant Calm() ==> dir == old(dir)
        invariant attempt > 0 ==> faults > old(faults)
        invariant alone ==> attempt == 0 && faults == old(faults)
      {
        var candidate := DrawName(QUARANTINE_MARKER, base);
        Interfere();
        var stat := Syscall();
        if !stat { return; }
        if candidate !in dir.names {
          TrackMore(start, history, allow, stirred, dir, drawn + {target}, allow, drawn + {candidate} + {target});
          DrawOne(drawn, target, candidate);
          drawn := drawn + {candidate};
          return true, candidate;
        }
        Fail();
        attempt := attempt + 1;
      }
    }

    // refuseQuarantine: true when the directory may be used
    method RefuseQuarantine() returns (clear: bool)
      requires Valid()
      modifies this`dir, this`faults, this`allowance, this`history, this`stirred
      ensures Valid() && SameCall() && Touched() == old(Touched())
      ensures Calm() ==> dir == old(dir)
      ensures HasMarked(dir) ==> !clear
      ensures (clear ==> faults == old(faults)) && (faults == old(faults) && !HasMarked(dir) ==> clear)
      ensures clear <==> faults == old(faults) && forall n | n in dir.names :: !Unresolved(n)
      ensures history == old(history) + [Actor(dir)]
    {
      hide Unresolved;
      Interfere();
      clear := Syscall();
      HasMarkedIff(dir);
      if HasMarked(dir) { clear := false; }
    }

    // quarantineUnknown only moves the name aside
    method QuarantineUnknown(base: string) returns (ok: bool)
      requires Valid() && base in drawn && |base| > |target|
      modifies this`dir, this`faults, this`allowance, this`history, this`stirred, this`drawn
      ensures Valid() && SameCall() && Touched() == old(Touched())
      ensures Calm() ==> dir == old(dir) || MovedAway(old(dir), dir, base, drawn)
      ensures Calm() && ok ==> base !in dir.names
      ensures Calm() && faults == old(faults) ==> ok
    {
      hide Tracked, Drawn, Touches, Marked, Rely, Seen, Edited, SameFiles, OthersKeep;
      Interfere();
      if base !in dir.names { return true; }
      ok := Syscall();
      if !ok { return; }
      var name;
      ok, name := RandomQuarantineName(base);
      if !ok { return; }
      Interfere();
      ok := RenameNoReplace(base, name);
      if !ok { return; }
      ok := Syscall();
    }

    // ftruncate or fchmod of a file nobody else can reach
    method RewriteHeld(name: string, s: Snapshot, data: string, perm: nat) returns (ok: bool)
      requires Valid() && name in drawn && Holds(dir, drawn, name, s)
      requires s in allow || Condemned(history, s.ino, allow)
      modifies this`dir, this`faults, this`allowance, this`history, this`stirred
      ensures Valid() && SameCall() && Touched() == old(Touched())
      ensures ok ==> Holds(dir, drawn, name, Present(s.ino, data, perm)) && Condemned(history, s.ino, allow)
      ensures Calm() ==> dir.names == old(dir).names && SameFiles(old(dir), dir, {s.ino})
      ensures faults == old(faults) <==> ok
    {
      hide Tracked, Drawn, Touches, Marked, LawfulEvent, Unpublished, Rely;
      ghost var h0 := history;
      Interfere();
      HoldsIsStable(old(dir), dir, drawn, name, s);
      if s !in allow { CondemnedGrows(h0, history, s.ino, allow); }
      assert SnapshotOf(s.ino, dir.files[s.ino]) == s;
      ghost var h1 := history;
      ok := Rewrite(s.ino, Inode(true, 0, data, perm));
      if ok {
        if s in allow {
          assert history[|h1|] == Own(Rewrote(s.ino, Inode(true, 0, s.data, s.perm), Inode(true, 0, data, perm)));
        } else {
          CondemnedGrows(h1, history, s.ino, allow);
        }
      }
    }

    method UnlinkHeld(name: string, s: Snapshot) returns (ok: bool)
      requires Valid() && name in drawn && Holds(dir, drawn, name, s) && Condemned(history, s.ino, allow)
      modifies this`dir, this`faults, this`allowance, this`history, this`stirred
      ensures Valid() && SameCall() && Touched() == old(Touched())
      ensures ok ==> Own(Unlinked(name, s.ino)) in history
      ensures Calm() && ok ==> dir.names == old(dir).names - {name} && dir.files == old(dir).files
      ensures Calm() && !ok ==> dir == old(dir)
      ensures faults == old(faults) <==> ok
    {
      hide Tracked, Drawn, Touches, LawfulEvent, Unpublished, Rely;
      ghost var h0 := history;
      Interfere();
      HoldsIsStable(old(dir), dir, drawn, name, s);
      CondemnedGrows(h0, history, s.ino, allow);
      DrawnIsLonger(drawn, target, name);
      ok := Unlink(name);
      if ok { assert history[|history| - 1] == Own(Unlinked(name, s.ino)); }
    }

    // Truncate, chmod, sync and close the retained file.
    method Sanitize(retained: string, moved: Snapshot) returns (ok: bool)
      requires Valid() && retained in drawn && moved.Present? && moved in allow && Holds(dir, drawn, retained, moved)
      modifies this`dir, this`faults, this`allowance, this`history, this`stirred
      ensures Valid() && SameCall() && Touched() == old(Touched())
      ensures ok ==>
                Holds(dir, drawn, retained, Present(moved.ino, "", PRIVATE_PERM)) &&
                  Condemned(history, moved.ino, allow)
      ensures Calm() ==> dir.names == old(dir).names && SameFiles(old(dir), dir, {moved.ino})
      ensures faults == old(faults) <==> ok
    {
      hide Tracked, Drawn, Touches, Marked, LawfulEvent, Unpublished, Rely, Private, SoleName, Condemned, WellFormed;
      hide Holds, Readable, TouchesName;
      ok := RewriteHeld(retained, moved, "", moved.perm);
      if !ok { return; }
      ok := RewriteHeld(retained, Present(moved.ino, "", moved.perm), "", PRIVATE_PERM);
      if !ok { return; }
      ok := Syscall(); // sync
      if !ok { return; }
      ok := Syscall(); // close
    }

    // Second half of discardSambaConfigSnapshotIfOwned: the proven file sits under a drawn name.
    method EraseRetained(retained: string, moved: Snapshot) returns (ok: bool)
      requires Valid() && retained in drawn && moved.Present? && moved in allow && Holds(dir, drawn, retained, moved)
      modifies this`dir, this`faults, this`allowance, this`history, this`stirred
      ensures Valid() && SameCall() && Touched() == old(Touched())
      ensures ok ==> Own(Unlinked(retained, moved.ino)) in history
      ensures Calm() && ok ==> dir.names == old(dir).names - {retained}
      ensures Calm() ==>
                SameFiles(old(dir), dir, {moved.ino}) &&
                  (dir.names == old(dir).names || dir.names == old(dir).names - {retained})
      ensures (ok ==> faults == old(faults)) && (Calm() && faults == old(faults) ==> ok)
    {
      hide Tracked, Drawn, Touches, Marked, LawfulEvent, Unpublished, Rely, Private, SoleName, Condemned, WellFormed;
      hide Holds, Readable, TouchesName;
      ok := Syscall(); // open the retained file; it is the inode `moved` names
      if !ok { return; }
      ok := Sanitize(retained, moved);
      if !ok { return; }
      ghost var d, h := dir, history;
      var final;
      ok, final := ReadSnapshot(retained);
      if Calm() { HoldsIsReadable(d, drawn, retained, Present(moved.ino, "", PRIVATE_PERM)); }
      if !ok || final != Present(moved.ino, "", PRIVATE_PERM) { return false; }
      CondemnedGrows(h, history, moved.ino, allow);
      ok := UnlinkHeld(retained, final);
      if !ok { return; }
      ok := Syscall(); // sync the directory
    }

    // Rename to a fresh quarantine name.
    method RenameAside(name: string) returns (ok: bool, retained: string)
      requires Valid() && (name in drawn || name == target) && |name| >= |target|
      modifies this`dir, this`faults, this`allowance, this`history, this`stirred, this`drawn
      ensures Valid() && SameCall()
      ensures ok ==> retained in drawn && retained in dir.names && retained != target && retained != name
      ensures Touched() == old(Touched()) +
                if ok && name == target then [Moved(target, retained, dir.names[retained])] else []
      ensures Calm() && !ok ==> dir == old(dir)
      ensures Calm() && ok ==>
                && name in old(dir).names && retained !in old(dir).names
                && dir == Apply(old(dir), Moved(name, retained, old(dir).names[name]))
      ensures Calm() && faults == old(faults) && name in old(dir).names ==> ok
      ensures alone && ok ==> faults == old(faults)
    {
      hide Tracked, Drawn, Touches, Marked, LawfulEvent, Unpublished, Private, WellFormed, Rely;
      ok, retained := RandomQuarantineName(name);
      if !ok { return; }
      Interfere();
      ok := RenameNoReplace(name, retained);
    }

    // First half: rename aside, look again, and undo the rename on a mismatch.
    method MoveAside(name: string, expected: Snapshot) returns (ok: bool, retained: string)
      requires Valid() && (name in drawn || name == target) && |name| >= |target| && expected.Present?
      modifies this`dir, this`faults, this`allowance, this`history, this`stirred, this`drawn
      ensures Valid() && SameCall()
      ensures ok ==> retained in drawn && Holds(dir, drawn, retained, expected)
      ensures name != target ==> Touched() == old(Touched())
      ensures name == target && ok ==>
                exists q :: q != target && Touched() == old(Touched()) + [Moved(target, q, expected.ino)]
      ensures name == target && !ok ==> RemovalTouches(old(Touched()), Touched(), target, expected, false)
      ensures Calm() && ok ==>
                retained !in old(dir).names && name in old(dir).names &&
                  dir == Apply(old(dir), Moved(name, retained, expected.ino))
      ensures Calm() ==> dir.files == old(dir).files && Shuffled(old(dir), dir, name, drawn)
      ensures Calm() && faults == old(faults) && Current(old(dir), name, expected) ==> ok
      ensures alone && ok ==> faults == old(faults)
    {
      hide Tracked, Drawn, Touches, Marked, LawfulEvent, Unpublished, Readable, SoleName, Private, WellFormed, Current;
      hide Rely, Seen, Edited, SameFiles, OthersKeep, Shuffled;
      hide RemovalTouches, Holds;
      CurrentIsBound(dir, name, expected);
      NotMoved(Touched(), target, expected);
      Unshuffled(dir, name);
      assert Touched() + [] == Touched();
      ok, retained := RenameAside(name);
      if !ok { return; }
      ghost var aside, i := dir, dir.names[retained];
      MovedAside(old(Touched()), target, expected, retained, i);
      var moved;
      ok, moved := ReadSnapshot(retained);
      if Calm() && Current(old(dir), name, expected) {
        CurrentMoves(old(dir), name, retained, expected);
        if ok { CurrentIsUnique(dir, retained, expected, moved); }
      }
      RelyKeepsDrawn(aside, dir, drawn, retained);
      if Calm() { ShuffledOnce(old(dir), aside, name, retained, drawn); }
      if !ok || moved != expected {
        MoveBack(name, retained);
        if Calm() { ShuffledBack(old(dir), aside, dir, name, retained, drawn); }
        return false, retained;
      }
      HoldsNames(dir, drawn, retained, moved);
    }

    // The rename back; what it undoes was moved once.
    method MoveBack(name: string, retained: string)
      requires Valid() && (name in drawn || name == target) && retained in drawn && retained != target
      requires retained in dir.names
      modifies this`dir, this`faults, this`allowance, this`history, this`stirred
      ensures Valid() && SameCall() && (name != target ==> Touched() == old(Touched()))
      ensures Touched() == old(Touched()) ||
                Touched() == old(Touched()) + [Moved(retained, name, old(dir).names[retained])]
      ensures Calm() ==>
                dir == old(dir) || (name !in old(dir).names &&
                  dir == Apply(old(dir), Moved(retained, name, old(dir).names[retained])))
    {
      hide Tracked, Drawn, Touches, Rely;
      Interfere();
      RelyKeepsDrawn(old(dir), dir, drawn, retained);
      var _ := RenameNoReplace(retained, name);
    }

    // discardSambaConfigSnapshotIfOwned
    method Discard(name: string, expected: Snapshot) returns (ok: bool)
      requires Valid() && (expected.Present? ==> expected in allow) && (name in drawn || name == target)
      requires |name| >= |target|
      modifies this`dir, this`faults, this`allowance, this`history, this`stirred, this`drawn
      ensures Valid() && SameCall()
      ensures name != target ==> Touched() == old(Touched())
      ensures name == target ==> RemovalTouches(old(Touched()), Touched(), target, expected, ok)
      ensures ok && expected.Present? ==> exists n :: Own(Unlinked(n, expected.ino)) in history
      ensures expected.Absent? ==> ok && dir == old(dir) && history == old(history)
      ensures Calm() && ok && expected.Present? ==>
                && Current(old(dir), name, expected) && dir.names == old(dir).names - {name}
                && SameFiles(old(dir), dir, {expected.ino})
      ensures Calm() && faults == old(faults) && Current(old(dir), name, expected) ==> ok
      ensures Calm() && faults == old(faults) && expected.Present? && !Current(old(dir), name, expected) ==>
                !ok && dir == old(dir)
      ensures Calm() && expected.Present? ==>
                SameFiles(old(dir), dir, {expected.ino}) && Shuffled(old(dir), dir, name, drawn)
      ensures alone && ok ==> faults == old(faults)
    {
      hide Tracked, Drawn, Touches, Marked, LawfulEvent, Unpublished, Rely, Private, SoleName, WellFormed, Holds;
      hide Readable, TouchesName, Shuffled;
      if !expected.Present? { return true; }
      Unshuffled(dir, name);
      var current;
      ok, current := ReadSnapshot(name);
      if !ok || current != expected { return false; }
      var retained;
      ok, retained := MoveAside(name, expected);
      if !ok { return; }
      ghost var aside := dir;
      ok := EraseRetained(retained, expected);
      if Calm() { ShuffledGone(old(dir), aside, dir, name, retained, drawn); }
    }

    // discardTemporarySambaConfigSnapshotIfOwned
    method DiscardTemporary(name: string, expected: Snapshot) returns (ok: bool)
      requires Valid() && expected.Present? && expected in allow && name in drawn && |name| > |target|
      modifies this`dir, this`faults, this`allowance, this`history, this`stirred, this`drawn
      ensures Valid() && SameCall() && Touched() == old(Touched())
      ensures Calm() && ok ==> dir.names == old(dir).names - {name}
      ensures Calm() ==> SameFiles(old(dir), dir, {expected.ino}) && Shuffled(old(dir), dir, name, drawn)
      ensures Calm() && faults == old(faults) && Current(old(dir), name, expected) ==> ok
      ensures alone && ok ==> faults == old(faults)
    {
      hide Tracked, Drawn, Touches, Marked, WellFormed, Current, Shuffled, MovedAway;
      ok := Discard(name, expected);
      if !ok {
        ghost var d, drew := dir, drawn;
        var _ := QuarantineUnknown(name);
        if Calm() {
          MovedFiles(d, dir, name, drawn);
          ShuffledTwice(old(dir), d, dir, name, drew, drawn);
        }
      }
    }

    // openat(O_CREAT | O_EXCL) of a name just drawn
    method CreateExclusive(name: string, perm: nat) returns (i: Ino)
      requires Valid() && name !in dir.names && Marked(name) && |name| > |target|
      modifies this`dir, this`history, this`drawn
      ensures Valid() && SameCall() && Touched() == old(Touched()) && drawn == old(drawn) + {name}
      ensures i !in old(dir).files && dir == Apply(old(dir), Created(name, i, perm))
      ensures Unpublished(history, i) && Holds(dir, drawn, name, Present(i, "", perm))
    {
      hide Tracked, Drawn, Touches, Marked;
      SomeInoIsFree(dir.files.Keys);
      i :| i !in dir.files;
      TrackMore(start, history, allow, stirred, dir, drawn + {target}, allow, drawn + {name} + {target});
      DrawOne(drawn, target, name);
      dir := Apply(dir, Created(name, i, perm));
      drawn := drawn + {name};
      Record(old(dir), Created(name, i, perm));
      assert history[|history| - 1] == Own(Created(name, i, perm));
    }

    // createStaging: sixteen attempts
    method CreateStaging(perm: nat) returns (ok: bool, name: string, i: Ino)
      requires Valid()
      modifies this`dir, this`faults, this`allowance, this`history, this`stirred, this`drawn
      ensures Valid() && SameCall() && Touched() == old(Touched())
      ensures ok ==>
                name in drawn && |name| > |target| && Unpublished(history, i) &&
                  Holds(dir, drawn, name, Present(i, "", perm))
      ensures !ok ==> faults > old(faults)
      ensures Calm() && ok ==>
                name !in old(dir).names && i !in old(dir).files && dir == Apply(old(dir), Created(name, i, perm))
      ensures Calm() && !ok ==> dir == old(dir)
      ensures alone && ok ==> faults == old(faults)
    {
      hide Tracked, Drawn, Touches, Marked, Rely, Private, SoleName, WellFormed, Holds, Unpublished;
      ok, name, i := false, "", 0;
      var attempt := 0;
      while attempt < 16
        invariant Valid() && SameCall() && Touched() == old(Touched()) && drawn == old(drawn)
        invariant Calm() ==> dir == old(dir)
        invariant attempt > 0 ==> faults > old(faults)
        invariant alone ==> attempt == 0 && faults == old(faults)
        invariant !ok
      {
        name := DrawName(STAGING_MARKER, target);
        Interfere();
        ok := Syscall();
        if !ok { return; }
        if name !in dir.names {
          i := CreateExclusive(name, perm);
          return;
        }
        ok := false;
        Fail();
        attempt := attempt + 1;
      }
    }

    // write or chmod of the staged file through its descriptor; a failing write may be partial
    method WriteStaged(name: string, s: Snapshot, data: string, perm: nat) returns (ok: bool, ghost now: Snapshot)
      requires Valid() && name in drawn && s.Present? && Holds(dir, drawn, name, s) && Unpublished(history, s.ino)
      modifies this`dir, this`faults, this`allowance, this`history, this`stirred
      ensures Valid() && SameCall() && Touched() == old(Touched())
      ensures now.Present? && now.ino == s.ino && Holds(dir, drawn, name, now) && Unpublished(history, s.ino)
      ensures ok ==> now == Present(s.ino, data, perm)
      ensures ok <==> faults == old(faults)
      ensures Calm() ==> dir.names == old(dir).names && dir.files == old(dir).files[s.ino := dir.files[s.ino]]
    {
      hide Tracked, Drawn, Touches, Marked, Rely, Unpublished;
      ghost var h := history;
      Interfere();
      HoldsIsStable(old(dir), dir, drawn, name, s);
      UnpublishedGrows(h, history[|h|], s.ino);
      h := history;
      var written: string := *;
      ok := Rewrite(s.ino, Inode(true, 0, data, perm));
      now := Present(s.ino, data, perm);
      if !ok {
        var partial := Rewrite(s.ino, Inode(true, 0, written, s.perm));
        now := if partial then Present(s.ino, written, s.perm) else s;
      }
      if |history| > |h| { UnpublishedGrows(h, history[|h|], s.ino); }
    }

    // The closeRetained closure: sanitize and drop a staging file that could not be completed.
    method CloseRetained(name: string, ghost s: Snapshot, i: Ino)
      requires Valid() && name in drawn && |name| > |target| && s.Present? && s.ino == i
      requires Present(i, "", PRIVATE_PERM) in allow
      requires Holds(dir, drawn, name, s) && Unpublished(history, i)
      modifies this`dir, this`faults, this`allowance, this`history, this`stirred, this`drawn
      ensures Valid() && SameCall() && Touched() == old(Touched())
      ensures Calm() ==> SameFiles(old(dir), dir, {i})
      ensures Calm() && faults == old(faults) ==> dir.names == old(dir).names - {name} && SameFiles(old(dir), dir, {i})
    {
      hide Tracked, Drawn, Touches, Marked, Rely, Unpublished, Private, SoleName;
      var read := dir.files[i];
      var truncated;
      ghost var now;
      truncated, now := WriteStaged(name, Present(i, read.data, read.perm), "", read.perm);
      read := dir.files[i];
      var moded;
      moded, now := WriteStaged(name, Present(i, read.data, read.perm), read.data, PRIVATE_PERM);
      var stat := Syscall();
      if stat {
        if truncated && moded { HoldsIsReadable(dir, drawn, name, Present(i, "", PRIVATE_PERM)); }
        var _ := DiscardTemporary(name, Present(i, "", PRIVATE_PERM));
      }
    }

    // chmod, write and sync the staged file
    method FillStaged(name: string, i: Ino, data: string, perm: nat) returns (ok: bool)
      requires Valid() && name in drawn && |name| > |target| && Present(i, "", PRIVATE_PERM) in allow
      requires Holds(dir, drawn, name, Present(i, "", perm)) && Unpublished(history, i)
      modifies this`dir, this`faults, this`allowance, this`history, this`stirred, this`drawn
      ensures Valid() && SameCall() && Touched() == old(Touched())
      ensures ok ==> Holds(dir, drawn, name, Present(i, data, perm))
      ensures ok <==> faults == old(faults)
      ensures Calm() && ok ==> dir == old(dir).(files := old(dir).files[i := Inode(true, 0, data, perm)])
      ensures Calm() ==> SameFiles(old(dir), dir, {i})
    {
      hide Tracked, Drawn, Touches, Marked, Rely, Private, SoleName, WellFormed, Unpublished;
      ghost var now;
      ok, now := WriteStaged(name, Present(i, "", perm), "", perm);
      if !ok { CloseRetained(name, now, i); return; }
      ok, now := WriteStaged(name, Present(i, "", perm), data, perm);
      if !ok { CloseRetained(name, now, i); return; }
      ok := Syscall();
      if !ok { CloseRetained(name, now, i); return; }
    }

    method Quarantine(name: string)
      requires Valid() && name in drawn && |name| > |target|
      modifies this`dir, this`faults, this`allowance, this`history, this`stirred, this`drawn
      ensures Valid() && SameCall() && Touched() == old(Touched()) && (Calm() ==> dir.files == old(dir).files)
    {
      hide Tracked, Drawn, Touches, MovedAway;
      var _ := QuarantineUnknown(name);
      MovedFiles(old(dir), dir, name, drawn);
    }

    // close the staged file and read it back
    method CloseStaged(name: string, s: Snapshot) returns (ok: bool, candidate: Snapshot)
      requires Valid() && name in drawn && |name| > |target| && s.Present? && Holds(dir, drawn, name, s)
      modifies this`dir, this`faults, this`allowance, this`history, this`stirred, this`drawn
      ensures Valid() && SameCall() && Touched() == old(Touched())
      ensures ok ==> candidate == s && Holds(dir, drawn, name, s) && |s.data| <= MAX_CONFIG_BYTES
      ensures Calm() && ok ==> dir == old(dir)
      ensures (ok ==> faults == old(faults)) && (Calm() && !ok && |s.data| <= MAX_CONFIG_BYTES ==> faults > old(faults))
      ensures Calm() ==> dir.files == old(dir).files
    {
      hide Tracked, Drawn, Touches, Marked, Rely, Private, SoleName, WellFormed, Readable, TouchesName, Holds;
      candidate := Absent;
      ok := Syscall();
      if !ok {
        Quarantine(name);
        return;
      }
      ghost var d := dir;
      ok, candidate := ReadSnapshot(name);
      if Calm() && |s.data| <= MAX_CONFIG_BYTES { HoldsIsReadable(d, drawn, name, s); }
      if !ok {
        Quarantine(name);
        return;
      }
      HoldsIsStable(d, dir, drawn, name, s);
      HoldsIsUnique(dir, drawn, name, s, candidate);
    }

    // Everything up to the candidate snapshot: create, fill, close, read back.
    method Stage(expected: Snapshot, data: string, perm: nat)
      returns (ok: bool, name: string, candidate: Snapshot, ghost staged: Ino)
      requires Valid() && Touched() == [] && allow <= {expected}
      modifies this
      ensures Valid() && SameTarget() && Touched() == []
      ensures allow <= Licence(expected, staged, data, perm)
      ensures ok ==> && allow == Licence(expected, staged, data, perm)
                     && candidate == Present(staged, data, perm) && name in drawn && |name| > |target|
                     && Holds(dir, drawn, name, candidate) && |data| <= MAX_CONFIG_BYTES
      ensures Calm() && ok ==>
                && name !in old(dir).names && staged !in old(dir).files
                && dir == Dir(old(dir).names[name := staged], old(dir).files[staged := Inode(true, 0, data, perm)])
      ensures Calm() ==> SameFiles(old(dir), dir, {}) && (allow <= {expected} || staged !in old(dir).files)
      ensures Calm() && !ok && |data| <= MAX_CONFIG_BYTES ==> faults > old(faults)
      ensures alone && ok ==> faults == old(faults)
    {
      hide Tracked, Drawn, Touches, Marked, Rely, Private, SoleName, WellFormed, Unpublished, Readable, TouchesName;
      hide Holds;
      candidate, staged := Absent, 0;
      var i;
      ok, name, i := CreateStaging(perm);
      staged := i;
      if !ok { return; }
      TrackMore(start, history, allow, stirred, dir, drawn + {target}, Licence(expected, i, data, perm),
        drawn + {target});
      allow := Licence(expected, i, data, perm);
      ok := FillStaged(name, i, data, perm);
      if !ok { return; }
      ok, candidate := CloseStaged(name, Present(i, data, perm));
    }

    // Publish where nothing is expected: RENAME_NOREPLACE
    method PublishNew(name: string, candidate: Snapshot) returns (published: Snapshot, ok: bool)
      requires Valid() && Touched() == [] && name in drawn && |name| > |target|
      requires candidate.Present? && |candidate.data| <= MAX_CONFIG_BYTES && candidate in allow
      requires Holds(dir, drawn, name, candidate)
      modifies this`dir, this`faults, this`allowance, this`history, this`stirred, this`drawn
      ensures Valid() && SameCall()
      ensures PublishTouches(Touched(), target, Absent, candidate.ino, published)
      ensures published == candidate || published == Absent
      ensures Calm() && faults == old(faults) && target !in old(dir).names ==> ok
      ensures Calm() && ok ==>
                && target !in old(dir).names && published == candidate
                && dir.names == (old(dir).names - {name})[target := candidate.ino] && dir.files == old(dir).files
      ensures Calm() && faults == old(faults) && target in old(dir).names ==>
                && !ok && published == Absent && dir.names == old(dir).names - {name}
                && SameFiles(old(dir), dir, {candidate.ino})
      ensures Calm() && faults <= old(faults) + 1 && target !in old(dir).names ==>
                Stands(dir, target, Absent, published)
      ensures alone && ok ==> faults == old(faults)
    {
      hide Tracked, Drawn, Touches, Marked, Private, SoleName, WellFormed, Readable, Shuffled, Rely;
      Interfere();
      HoldsIsStable(old(dir), dir, drawn, name, candidate);
      HoldsIsReadable(dir, drawn, name, candidate);
      ghost var d := dir;
      ok := RenameNoReplace(name, target);
      if ok {
        CurrentMoves(d, name, target, candidate);
        ok := Syscall(); // sync
        return candidate, ok;
      }
      var _ := DiscardTemporary(name, candidate);
      TargetIsNotDrawn(drawn, target);
      if Calm() { ShuffledAbsent(d, dir, name, drawn, target); }
      return Absent, false;
    }

    // After a rollback: drop the candidate, or quarantine whatever came back instead.
    method DropTemporary(name: string, candidate: Snapshot)
      requires Valid() && candidate.Present? && candidate in allow && name in drawn && |name| > |target|
      modifies this`dir, this`faults, this`allowance, this`history, this`stirred, this`drawn
      ensures Valid() && SameCall() && Touched() == old(Touched())
      ensures Calm() && faults == old(faults) && Current(old(dir), name, candidate) ==>
                && dir.names == old(dir).names - {name} && SameFiles(old(dir), dir, {candidate.ino})
    {
      hide Tracked, Drawn, Touches, Marked, Private, WellFormed, SoleName, Rely;
      var ok, temporary := ReadSnapshot(name);
      if ok && temporary == candidate {
        var _ := DiscardTemporary(name, temporary);
      } else {
        var _ := QuarantineUnknown(name);
      }
      var _ := Syscall(); // sync
    }

    // The displaced file was not the expected one: exchange back, or leave both in quarantine.
    method RollBack(name: string, candidate: Snapshot)
      requires Valid() && name in drawn && |name| > |target| && name in dir.names
      requires candidate.Present? && |candidate.data| <= MAX_CONFIG_BYTES && candidate in allow
      modifies this`dir, this`faults, this`allowance, this`history, this`stirred, this`drawn
      ensures Valid() && SameCall()
      ensures || Touched() == old(Touched())
              || exists x, y :: Touched() == old(Touched()) + [Swapped(name, target, old(dir).names[name], x, y)]
      ensures Calm() && faults == old(faults) && Current(old(dir), target, candidate) &&
                old(dir).names[name] != candidate.ino ==>
                && dir.names == old(dir).names[target := old(dir).names[name]] - {name}
                && SameFiles(old(dir), dir, {candidate.ino})
    {
      hide Tracked, Drawn, Touches, Marked, Private, SoleName, Readable, Rely, Seen, Edited, OthersKeep, Current;
      hide SameFiles, WellFormed, Exchanged;
      CurrentIsBound(dir, target, candidate);
      CurrentIsReadable(dir, target, candidate);
      var currentOk, current := ReadSnapshot(target);
      ghost var read := dir;
      RelyKeepsDrawn(old(dir), read, drawn, name);
      if Calm() && currentOk && Current(old(dir), target, candidate) {
        CurrentIsUnique(dir, target, candidate, current);
      }
      if !currentOk || current != candidate {
        var _ := QuarantineUnknown(name);
        return;
      }
      Interfere();
      RelyKeepsDrawn(read, dir, drawn, name);
      ghost var d := dir;
      var rolledBack := RenameExchange(name, target);
      if !rolledBack {
        var _ := QuarantineUnknown(name);
        return;
      }
      if Calm() && Current(old(dir), target, candidate) && old(dir).names[name] != candidate.ino {
        RolledBack(old(dir), dir, name, target, candidate);
      }
      DropTemporary(name, candidate);
    }

    // After the exchange: accept, or roll back
    method JudgeDisplaced(name: string, expected: Snapshot, candidate: Snapshot) returns (published: Snapshot, ok: bool)
      requires Valid() && name in drawn && |name| > |target| && name in dir.names && expected.Present?
      requires expected in allow
      requires candidate.Present? && |candidate.data| <= MAX_CONFIG_BYTES && candidate in allow
      requires dir.names[name] in dir.files
      requires Touched() == [Swapped(name, target, candidate.ino, dir.names[name],
                 SnapshotOf(dir.names[name], dir.files[dir.names[name]]))]
      modifies this`dir, this`faults, this`allowance, this`history, this`stirred, this`drawn
      ensures Valid() && SameCall()
      ensures PublishTouches(Touched(), target, expected, candidate.ino, published)
      ensures published == candidate || published == Absent
      ensures published.Present? ==>
                SnapshotOf(old(dir).names[name], old(dir).files[old(dir).names[name]]) == expected ||
                  Edited(start, history, |old(history)|, expected.ino)
      ensures Calm() && faults == old(faults) && Current(old(dir), name, expected) ==> ok
      ensures Calm() && ok ==>
                && Current(old(dir), name, expected) && published == candidate
                && dir.names == old(dir).names - {name} && SameFiles(old(dir), dir, {expected.ino})
      ensures Calm() && faults <= old(faults) + 1 && Current(old(dir), name, expected) &&
                Current(old(dir), target, candidate)
              && candidate.ino != expected.ino ==>
                if published.Present? then Current(dir, target, candidate)
                else
                  dir.names == old(dir).names[target := expected.ino] - {name} &&
                  SameFiles(old(dir), dir, {candidate.ino})
      ensures Calm() && faults == old(faults) && !Current(old(dir), name, expected)
              && Current(old(dir), target, candidate) && old(dir).names[name] != candidate.ino ==>
                && !ok && published == Absent
                && dir.names == old(dir).names[target := old(dir).names[name]] - {name}
                && SameFiles(old(dir), dir, {candidate.ino})
      ensures alone && ok ==> faults == old(faults)
    {
      hide Tracked, Drawn, Touches, Marked, Private, SoleName, Readable, WellFormed, Edited, Seen, OthersKeep, Shuffled;
      hide Current, SameFiles;
      var readOk, displaced := ReadSnapshot(name);
      ghost var read := history;
      if readOk && displaced == expected {
        var discarded := DiscardTemporary(name, displaced);
        TargetIsNotDrawn(drawn, target);
        if Calm() && Current(old(dir), name, expected) && Current(old(dir), target, candidate) &&
          candidate.ino != expected.ino {
          CurrentIsBound(old(dir), name, expected);
          ShuffledKeeps(old(dir), dir, name, drawn, target, candidate, expected.ino);
        }
        ok := Syscall(); // sync
        if Edited(start, read, |old(history)|, expected.ino) {
          EditedStays(start, read, history, |old(history)|, expected.ino);
        }
        return candidate, ok && discarded;
      }
      if Calm() && Current(old(dir), name, expected) {
        CurrentIsReadable(old(dir), name, expected);
        CurrentIsBound(old(dir), name, expected);
        if readOk { CurrentIsUnique(dir, name, expected, displaced); }
      }
      RollBack(name, candidate);
      return Absent, false;
    }

    // The exchange itself, with the directory and the run as they were right before it.
    method ExchangeIn(name: string, candidate: Snapshot) returns (ok: bool, ghost d: Dir, ghost h: seq<Event>)
      requires Valid() && Touched() == [] && name in drawn && |name| > |target|
      requires candidate.Present? && Holds(dir, drawn, name, candidate)
      modifies this`dir, this`faults, this`allowance, this`history, this`stirred
      ensures Valid() && SameCall() && drawn == old(drawn) && WellFormed(d) && Holds(d, drawn, name, candidate)
      ensures d == Replay(start, h) && Stirs(start, h) == stirred && Touches(h, target) == []
      ensures (Calm() ==> d == old(dir))
      ensures !ok ==> dir == d && history == h
      ensures ok ==>
                && target in d.names && dir == Exchanged(d, name, target)
                && var s := Swapped(name, target, candidate.ino, d.names[target],
                    SnapshotOf(d.names[target], d.files[d.names[target]]));
                   history == h + [Own(s)] && Touched() == [s]
      ensures (ok ==> faults == old(faults)) && (faults == old(faults) && target in d.names ==> ok)
    {
      hide Tracked, Drawn, Touches, Marked, Readable, Rely, Private, SoleName;
      Interfere();
      HoldsIsStable(old(dir), dir, drawn, name, candidate);
      TrackedHere(start, history, allow, stirred, dir, drawn + {target});
      d, h := dir, history;
      ok := RenameExchange(name, target);
    }

    // Publish over an existing file: RENAME_EXCHANGE, then look at what was displaced
    method PublishOver(name: string, expected: Snapshot, candidate: Snapshot) returns (published: Snapshot, ok: bool)
      requires Valid() && Touched() == [] && name in drawn && |name| > |target| && expected.Present?
      requires expected in allow
      requires candidate.Present? && |candidate.data| <= MAX_CONFIG_BYTES && candidate in allow
      requires Holds(dir, drawn, name, candidate)
      modifies this`dir, this`faults, this`allowance, this`history, this`stirred, this`drawn
      ensures Valid() && SameCall()
      ensures PublishTouches(Touched(), target, expected, candidate.ino, published)
      ensures published == candidate || published == Absent
      ensures forall k: nat | FirstSwap(history, k, target) ::
                SwapJudged(start, history, k, dir, target, expected, candidate, published, ok, faults == old(faults))
      ensures Calm() && (ok || faults == old(faults)) ==>
                PublishedOrUndone(old(dir), dir, name, target, expected, candidate, published, ok)
      ensures Calm() && faults <= old(faults) + 1 && Current(old(dir), target, expected) ==>
                Stands(dir, target, expected, published)
      ensures alone && ok ==> faults == old(faults)
    {
      hide Tracked, Drawn, Touches, Marked, Readable, Rely, Private, SoleName, Holds, WellFormed, Current, SameFiles;
      hide Edited, PublishTouches, Shuffled, Stands;
      hide PublishedOrUndone, SwapJudged, FirstSwap, Exchanged, Stirs, Replay, OthersKeep;
      ghost var d, h;
      ok, d, h := ExchangeIn(name, candidate);
      if !ok {
        HoldsIsReadable(d, drawn, name, candidate);
        var _ := DiscardTemporary(name, candidate);
        forall k: nat | FirstSwap(history, k, target) ensures false { NoFirstSwap(history, k, target); }
        NoTouchIsFine(target, expected, candidate.ino);
        if target !in d.names { NotExchanged(d, dir, name, target, expected, candidate); }
        TargetIsNotDrawn(drawn, target);
        if Calm() && Current(d, target, expected) {
          StillExpected(d, dir, old(drawn), drawn, name, target, expected, candidate);
        }
        return Absent, false;
      }
      ghost var e, swapped := dir, history;
      ExchangeFacts(d, drawn, name, target, expected, candidate);
      published, ok := JudgeDisplaced(name, expected, candidate);
      ghost var s := swapped[|h|].step;
      TrackedHere(start, history, allow, stirred, dir, drawn + {target});
      SwapIsFirst(h, history, s, target);
      if stirred == Stirs(start, h) && (ok || faults == old(faults)) {
        JudgedIsUndone(d, e, dir, name, target, expected, candidate, published, ok);
      }
      CurrentIsBound(d, target, expected);
      if Calm() && Current(d, target, expected) && faults <= old(faults) + 1 {
        SwappedStands(d, e, dir, name, target, expected, candidate, published);
      }
      Swapping(start, h, s, history, stirred, dir, target, expected, candidate, published, ok, faults == old(faults));
      forall k: nat | FirstSwap(history, k, target)
        ensures SwapJudged(start, history, k, dir, target, expected, candidate, published, ok, faults == old(faults))
      {
        OneFirstSwap(history, k, |h|, target);
      }
    }

    method Begin(name: string, licence: set<Snapshot>)
      requires WellFormed(dir)
      modifies this
      ensures Valid() && dir == old(dir) && start == dir && history == [] && drawn == {} && faults == 0 && stirred == 0
      ensures allowance == old(allowance)
      ensures target == name && allow == licence && Touched() == []
    {
      hide Marked, WellFormed;
      target, drawn := name, {};
      start, history, faults, stirred, allow := dir, [], 0, 0, licence;
    }

    // Dispatch on whether a file is expected
    method PublishStaged(name: string, expected: Snapshot, candidate: Snapshot) returns (published: Snapshot, ok: bool)
      requires Valid() && Touched() == [] && name in drawn && |name| > |target| && expected in allow
      requires candidate.Present? && |candidate.data| <= MAX_CONFIG_BYTES && candidate in allow
      requires Holds(dir, drawn, name, candidate)
      modifies this`dir, this`faults, this`allowance, this`history, this`stirred, this`drawn
      ensures Valid() && SameCall()
      ensures PublishTouches(Touched(), target, expected, candidate.ino, published)
      ensures published == candidate || published == Absent
      ensures expected.Present? ==> forall k: nat | FirstSwap(history, k, target) ::
                SwapJudged(start, history, k, dir, target, expected, candidate, published, ok, faults == old(faults))
      ensures Calm() && (ok || faults == old(faults)) ==>
                PublishedOrUndone(old(dir), dir, name, target, expected, candidate, published, ok)
      ensures Calm() && faults <= old(faults) + 1 && Matches(old(dir), target, expected) ==>
                Stands(dir, target, expected, published)
      ensures alone && ok ==> faults == old(faults)
    {
      hide Tracked, Drawn, Touches, Marked, Readable, Rely, Private, Holds, SoleName, PublishTouches, TouchesName;
      hide SwapJudged, FirstSwap, Stands;
      if expected.Absent? {
        published, ok := PublishNew(name, candidate);
      } else {
        published, ok := PublishOver(name, expected, candidate);
      }
    }

    /** publishSambaConfigCAS.  For every behaviour of the other actor and every pattern of
        failures the run is lawful, so NothingForeignIsLost applies to it, and what happened
        to the target is what the returned snapshot says. */
    method Publish(name: string, expected: Snapshot, data: string, perm: nat)
      returns (published: Snapshot, ok: bool, ghost staged: Ino)
      requires WellFormed(dir)
      modifies this
      ensures Valid() && start == old(dir) && target == name
      ensures allow <= Licence(expected, staged, data, perm)
      ensures PublishTouches(Touched(), name, expected, staged, published)
      ensures published == Absent || published == Present(staged, data, perm)
      ensures expected.Present? ==> forall k: nat | FirstSwap(history, k, name) ::
                SwapJudged(start, history, k, dir, name, expected, Present(staged, data, perm), published, ok,
                  faults == 0)
      ensures history != [] && history[0].Actor?
      ensures (HasMarked(history[0].left) ==> !ok && published == Absent && history == [Actor(dir)])
      ensures alone ==> stirred == 0 && faults + allowance == old(allowance)
      ensures stirred == 0 ==> forall n | n != name && !Marked(n) :: Keeps(old(dir), dir, n)
      ensures stirred == 0 && HasMarked(old(dir)) ==>
                !ok && published == Absent && dir == old(dir) && OnlyActor(history)
      ensures stirred == 0 ==> OthersStand(old(dir), dir, name, expected) && SameFiles(old(dir), dir, Inos(expected))
      ensures stirred == 0 && faults <= 1 && Matches(old(dir), name, expected) ==>
                Stands(dir, name, expected, published)
      ensures stirred == 0 && (ok || (faults == 0 && |data| <= MAX_CONFIG_BYTES && !HasMarked(old(dir)))) ==>
                if Matches(old(dir), name, expected)
                then ok && published.Present? && Replaced(old(dir), dir, name, expected, published)
                else !ok && published == Absent && dir.names == old(dir).names && SameFiles(old(dir), dir, {})
      ensures stirred == 0 && faults == 0 && |data| <= 4 * 1024 * 1024 && Matches(old(dir), name, expected) &&
                (forall n | n in old(dir).names :: !Unresolved(n)) ==>
                ok && published.Present? && Replaced(old(dir), dir, name, expected, published)
      ensures alone && ok ==> faults == 0
    {
      hide Tracked, Drawn, Touches, Marked, Readable, Rely, Private, Holds, SoleName, PublishTouches, TouchesName;
      hide PublishedOrUndone, Replaced, SameFiles, Matches, HasMarked, Stands, OthersStand, Current, Keeps, FirstSwap;
      hide Unresolved;
      HasMarkedIff(dir);
      published, staged := Absent, 0;
      Begin(name, {expected});
      ok := RefuseQuarantine();
      if !ok {
        Untouched(name, expected, staged);
        NamesKept(old(dir));
        OthersKept(old(dir), expected);
        FilesKept(old(dir), expected);
        StandsStill(old(dir), name, expected);
        return;
      }
      published, ok, staged := StageAndPublish(expected, data, perm);
    }

    // Once the directory is known to hold no unresolved entry.
    method StageAndPublish(expected: Snapshot, data: string, perm: nat)
      returns (published: Snapshot, ok: bool, ghost staged: Ino)
      requires Valid() && Touched() == [] && allow == {expected} && faults == 0 && WellFormed(start)
      requires |history| == 1 && history[0] == Actor(dir) && (stirred == 0 ==> dir == start)
      modifies this
      ensures Valid() && SameTarget() && history[0] == old(history)[0]
      ensures allow <= Licence(expected, staged, data, perm)
      ensures PublishTouches(Touched(), target, expected, staged, published)
      ensures published == Absent || published == Present(staged, data, perm)
      ensures expected.Present? ==> forall k: nat | FirstSwap(history, k, target) ::
                SwapJudged(start, history, k, dir, target, expected, Present(staged, data, perm), published, ok,
                  faults == 0)
      ensures stirred == 0 ==> forall n | n != target && !Marked(n) :: Keeps(start, dir, n)
      ensures stirred == 0 ==> OthersStand(start, dir, target, expected) && SameFiles(start, dir, Inos(expected))
      ensures stirred == 0 && faults <= 1 && Matches(start, target, expected) ==>
                Stands(dir, target, expected, published)
      ensures stirred == 0 && (ok || (faults == 0 && |data| <= MAX_CONFIG_BYTES)) ==>
                if Matches(start, target, expected)
                then ok && published.Present? && Replaced(start, dir, target, expected, published)
                else !ok && published == Absent && dir.names == start.names && SameFiles(start, dir, {})
      ensures alone && ok ==> faults == 0
    {
      hide Tracked, Drawn, Touches, Marked, Readable, Rely, Private, Holds, SoleName, PublishTouches, TouchesName;
      hide PublishedOrUndone, Replaced, SameFiles, Matches, HasMarked, Stands, OthersStand, Current, Keeps, FirstSwap;
      published := Absent;
      var staging, candidate;
      ok, staging, candidate, staged := Stage(expected, data, perm);
      if !ok {
        Untouched(target, expected, staged);
        NamesKept(start);
        if stirred == 0 {
        OthersKept(start, expected);
        FilesKept(start, expected);
      }
        if stirred == 0 && Matches(start, target, expected) { StillMatches(start, expected); }
        return;
      }
      if stirred == 0 { StagedMatches(start, dir, staging, target, expected, candidate); }
      ghost var d := dir;
      published, ok := PublishStaged(staging, expected, candidate);
      if stirred == 0 && (ok || faults == 0) {
        StagedThenPublished(start, d, dir, staging, target, expected, candidate, published, ok);
      }
      NamesKept(start);
      if stirred == 0 {
        OthersKept(start, expected);
        FilesKept(start, expected);
      }
    }

    lemma Untouched(name: string, expected: Snapshot, staged: Ino)
      requires Touched() == [] && target == name
      ensures PublishTouches(Touched(), name, expected, staged, Absent)
      ensures forall k: nat :: !FirstSwap(history, k, name)
    {
      forall k: nat ensures !FirstSwap(history, k, name) { NoFirstSwap(history, k, name); }
    }

    lemma OthersKept(was: Dir, expected: Snapshot)
      requires Valid() && start == was && WellFormed(was)
      requires forall s | s in allow && s.Present? :: s == expected || s.ino !in was.files
      ensures stirred == 0 ==> OthersStand(was, dir, target, expected)
    {
      hide Marked, Keeps, Touches, Current, SoleName, Replay, Stirs, LegalRun, Lawful, Within;
      if stirred == 0 {
        forall n, t: Snapshot | n != target && !Marked(n) && t.Present? &&
          (expected.Present? ==> t.ino != expected.ino) && Current(was, n, t)
          ensures Current(dir, n, t)
        {
          if n in drawn { DrawnIsLonger(drawn, target, n); }
          OtherIsSpared(history, drawn + {target}, n);
          SparedStays(start, history, n);
          CurrentFacts(was, n, t);
          FilesStay(start, history, allow, t.ino);
          CurrentStays(was, dir, n, t);
        }
      }
    }

    lemma FilesKept(was: Dir, expected: Snapshot)
      requires Valid() && start == was && WellFormed(was)
      requires forall s | s in allow && s.Present? :: s == expected || s.ino !in was.files
      ensures stirred == 0 ==> SameFiles(was, dir, Inos(expected))
    {
      hide Replay, Stirs, LegalRun, Lawful, Within;
      if stirred == 0 {
        forall i | i in was.files && i !in Inos(expected) ensures i in dir.files && dir.files[i] == was.files[i] {
          FilesStay(start, history, allow, i);
        }
      }
    }

    // Nothing touched the target and no file was written to.
    lemma StillMatches(was: Dir, expected: Snapshot)
      requires Valid() && start == was && WellFormed(was) && stirred == 0 && Touched() == [] && SameFiles(was, dir, {})
      requires Matches(was, target, expected)
      ensures Stands(dir, target, expected, Absent)
    {
      hide Touches, Replay, Stirs, LegalRun, Lawful, Within, Keeps;
      UntouchedIsSpared(history, target);
      SparedStays(start, history, target);
      KeepsName(was, dir, target);
      if expected.Present? {
        CurrentFacts(was, target, expected);
        CurrentStays(was, dir, target, expected);
      }
    }

    lemma NamesKept(was: Dir)
      requires Valid() && start == was
      ensures stirred == 0 ==> forall n | n != target && !Marked(n) :: Keeps(was, dir, n)
    {
      hide Marked, Keeps, Touches, Lawful, LegalRun, Within;
      if stirred == 0 {
        SpansKeep(start, history, 0, allow, stirred, was, dir, drawn, target);
        forall n | n != target && !Marked(n) ensures Keeps(was, dir, n) {
          if n in drawn { DrawnIsLonger(drawn, target, n); }
        }
      }
    }

    /** removeSambaConfigCAS.  It only ever erases exactly `expected`, and a success means the
        target was moved away once, as that very inode, and found absent afterwards. */
    method Remove(name: string, expected: Snapshot) returns (ok: bool)
      requires WellFormed(dir)
      modifies this
      ensures Valid() && start == old(dir) && target == name && allow == {expected}
      ensures RemovalTouches([], Touched(), name, expected, ok)
      ensures history != [] && history[0].Actor? && (HasMarked(history[0].left) ==> !ok && history == [Actor(dir)])
      ensures alone ==> stirred == 0 && faults + allowance == old(allowance)
      ensures ok && expected.Present? ==> exists n :: Own(Unlinked(n, expected.ino)) in history
      ensures ok ==> name !in dir.names
      ensures stirred == 0 ==> forall n | n != name && !Marked(n) :: Keeps(old(dir), dir, n)
      ensures stirred == 0 && HasMarked(old(dir)) ==> !ok && dir == old(dir) && OnlyActor(history)
      ensures stirred == 0 && ok && expected.Absent? ==> dir == old(dir)
      ensures stirred == 0 && expected.Present? && (ok || (faults == 0 && !HasMarked(old(dir)))) ==>
                if Matches(old(dir), name, expected) then
                  ok && dir.names == old(dir).names - {name} && SameFiles(old(dir), dir, {expected.ino})
                else
                  !ok && dir == old(dir)
      ensures stirred == 0 && faults == 0 && expected.Present? && Matches(old(dir), name, expected) &&
                (forall n | n in old(dir).names :: !Unresolved(n)) ==>
                ok && dir.names == old(dir).names - {name} && SameFiles(old(dir), dir, {expected.ino})
      ensures alone && ok ==> faults == 0
    {
      hide Tracked, Drawn, Touches, Marked, Readable, Rely, Private, Holds, SoleName, HasMarked, Keeps, Shuffled;
      hide SameFiles, Current, WellFormed, TouchesName, Unresolved;
      HasMarkedIff(dir);
      Begin(name, {expected});
      ok := RefuseQuarantine();
      if !ok {
        NamesKept(old(dir));
        return;
      }
      ok := Discard(name, expected);
      if !ok {
        NamesKept(old(dir));
        return;
      }
      Interfere();
      var stat := Syscall();
      NamesKept(old(dir));
      if !stat || name in dir.names { return false; }
      ok := Syscall(); // sync
    }
  }

  ghost predicate OnlyActor(h: seq<Event>) {
    forall k | 0 <= k < |h| :: h[k].Actor?
  }

  // The target is what the caller was told it is.
  ghost predicate Matches(d: Dir, name: string, expected: Snapshot) {
    if expected.Absent? then name !in d.names else Current(d, name, expected)
  }

  ghost function Inos(s: Snapshot): set<Ino> {
    if s.Present? then {s.ino} else {}
  }

  // The target holds what the caller is told: the new file, or still what was expected.
  ghost predicate Stands(d: Dir, name: string, expected: Snapshot, published: Snapshot) {
    if published.Present? then Current(d, name, published) else Matches(d, name, expected)
  }

  // A quiet, faultless publish of a staged file: the target is replaced or nothing but the
  // staging entry changes.
  ghost predicate PublishedOrUndone(d: Dir, e: Dir, staging: string, target: string, expected: Snapshot,
                                    candidate: Snapshot, published: Snapshot, ok: bool)
    requires candidate.Present?
  {
    if Matches(d, target, expected) then
      && ok && published == candidate && e.names == (d.names - {staging})[target := candidate.ino]
      && SameFiles(d, e, if expected.Present? then {expected.ino} else {})
    else
      !ok && published == Absent && e.names == d.names - {staging} && SameFiles(d, e, {candidate.ino})
  }

  lemma StagedThenPublished(d: Dir, m: Dir, e: Dir, staging: string, target: string, expected: Snapshot,
                            candidate: Snapshot, published: Snapshot, ok: bool)
    requires WellFormed(d) && staging !in d.names && staging != target && candidate.Present?
    requires candidate.ino !in d.files
    requires m == Dir(d.names[staging := candidate.ino],
               d.files[candidate.ino := Inode(true, 0, candidate.data, candidate.perm)])
    requires PublishedOrUndone(m, e, staging, target, expected, candidate, published, ok)
    ensures if Matches(d, target, expected)
            then ok && published == candidate && Replaced(d, e, target, expected, candidate)
            else !ok && published == Absent && e.names == d.names && SameFiles(d, e, {})
  {
    AddingKeepsCurrent(d, target, expected, staging, candidate.ino, Inode(true, 0, candidate.data, candidate.perm));
    CurrentIsBound(d, target, expected);
  }

  lemma StandsStill(d: Dir, name: string, expected: Snapshot)
    ensures Matches(d, name, expected) ==> Stands(d, name, expected, Absent)
  {
  }

  lemma StagedMatches(d: Dir, m: Dir, staging: string, target: string, expected: Snapshot, candidate: Snapshot)
    requires WellFormed(d) && staging !in d.names && staging != target && candidate.Present?
    requires candidate.ino !in d.files
    requires m == Dir(d.names[staging := candidate.ino],
               d.files[candidate.ino := Inode(true, 0, candidate.data, candidate.perm)])
    ensures Matches(m, target, expected) <==> Matches(d, target, expected)
  {
    AddingKeepsCurrent(d, target, expected, staging, candidate.ino, Inode(true, 0, candidate.data, candidate.perm));
  }

  lemma NoTouchIsFine(target: string, expected: Snapshot, staged: Ino)
    ensures PublishTouches([], target, expected, staged, Absent)
  {
  }

  // `name` went from `expected` to the new file `published`, and nothing else changed.
  ghost predicate Replaced(d: Dir, e: Dir, name: string, expected: Snapshot, published: Snapshot)
    requires published.Present?
  {
    && published.ino !in d.files && published.ino in e.files
    && e.files[published.ino] == Inode(true, 0, published.data, published.perm)
    && e.names == d.names[name := published.ino]
    && SameFiles(d, e, if expected.Present? then {expected.ino} else {})
  }

  lemma AddingKeepsCurrent(d: Dir, name: string, s: Snapshot, added: string, i: Ino, f: Inode)
    requires WellFormed(d) && added !in d.names && i !in d.files && added != name
    ensures Current(Dir(d.names[added := i], d.files[i := f]), name, s) <==> Current(d, name, s)
  {
    var e := Dir(d.names[added := i], d.files[i := f]);
    assert forall n | n in d.names :: e.names[n] == d.names[n];
    assert SoleName(e, name) <==> SoleName(d, name);
  }

  function Exchanged(d: Dir, a: string, b: string): (e: Dir)
    requires a in d.names && b in d.names
    ensures e.files == d.files && e.names.Keys == d.names.Keys && e.names[a] == d.names[b] && e.names[b] == d.names[a]
    ensures forall n | n in d.names && n != a && n != b :: e.names[n] == d.names[n]
  {
    d.(names := d.names[a := d.names[b]][b := d.names[a]])
  }

  lemma ExchangeIsSymmetric(d: Dir, a: string, b: string)
    requires a in d.names && b in d.names
    ensures Exchanged(d, a, b) == Exchanged(d, b, a)
  {
    assert Exchanged(d, a, b).names == Exchanged(d, b, a).names;
  }

  // A current snapshot moves with its inode when two names are exchanged.
  lemma ExchangeCurrent(d: Dir, from: string, to: string, s: Snapshot)
    requires WellFormed(d) && from in d.names && to in d.names && d.names[to] != d.names[from]
    ensures Current(Exchanged(d, from, to), to, s) <==> Current(d, from, s)
    ensures Readable(Exchanged(d, from, to), to) <==> Readable(d, from)
  {
    var e := Exchanged(d, from, to);
    assert forall n | n in d.names && n != from :: d.names[n] == d.names[from] ==>
      n != to && e.names[n] == d.names[from];
    assert forall n | n in e.names && n != to :: e.names[n] == e.names[to] ==> n != from && d.names[n] == d.names[from];
    assert SoleName(e, to) <==> SoleName(d, from);
  }

  // What a publish may have done to `target`: nothing, one step from exactly the expected
  // file to the candidate, or an exchange that was given back the very inode it displaced.
  ghost predicate PublishTouches(t: seq<Step>, target: string, expected: Snapshot, staged: Ino, published: Snapshot) {
    if published.Present? then
      && |t| == 1
      && if expected.Absent? then
           t[0].Moved? && t[0].to == target && t[0].from != target && t[0].ino == published.ino
         else
           && t[0].Swapped? && t[0].second == target && t[0].first != target && t[0].firstIno == published.ino
           && t[0].secondIno == expected.ino
    else
      || t == []
      || (&& expected.Present? && t[0].Swapped? && t[0].second == target && t[0].first != target &&
          t[0].firstIno == staged
          && (|t| == 1 || (|t| == 2 && t[1].Swapped? && t[1].second == target && t[1].first == t[0].first &&
              t[1].firstIno == t[0].secondIno)))
  }

  // The first own step that touches `target` is the exchange at k.
  ghost predicate FirstSwap(h: seq<Event>, k: nat, target: string) {
    && k < |h| && h[k].Own? && h[k].step.Swapped? && h[k].step.second == target && h[k].step.first != target
    && Touches(h[..k], target) == []
  }

  // What a publish by exchange tells.  When it claims success, the target held exactly
  // `expected` at the exchange, unless the actor edited that file afterwards; and if nobody
  // disturbs it from the exchange on and nothing fails, it replaces exactly `expected`, or
  // gives the target back the very file found there and removes its own.
  ghost predicate SwapJudged(start: Dir, h: seq<Event>, k: nat, e: Dir, target: string, expected: Snapshot,
                             candidate: Snapshot, published: Snapshot, ok: bool, faultless: bool)
    requires FirstSwap(h, k, target) && candidate.Present? && expected.Present?
  {
    && (published.Present? ==> h[k].step.displaced == expected || Edited(start, h, k + 1, expected.ino))
    && (faultless && Stirs(start, h[..k + 1]) == Stirs(start, h) ==>
          PublishedOrUndone(Replay(start, h[..k]), e, h[k].step.first, target, expected, candidate, published, ok))
  }

  // A run in which the exchange displaces another content than expected and the read-back
  // still finds the expected one: through a link elsewhere the actor edits the file before
  // the exchange, and afterwards writes the old content back and drops the link.
  function LinkedStart(): Dir {
    Dir(map["t" := 0], map[0 := Inode(true, 0, "old", PRIVATE_PERM)])
  }

  function LinkedStaging(): (name: string)
    ensures name != "t"
  {
    DrawnName(STAGING_MARKER, "t", "")
  }

  ghost function LinkedRun(): seq<Event> {
    var staging := LinkedStaging();
    [Actor(Dir(map["t" := 0], map[0 := Inode(true, 1, "new", PRIVATE_PERM)])),
     Own(Created(staging, 1, PRIVATE_PERM)),
     Own(Swapped(staging, "t", 1, 0, Present(0, "new", PRIVATE_PERM))),
     Actor(Dir(map["t" := 1, staging := 0],
       map[0 := Inode(true, 0, "old", PRIVATE_PERM), 1 := Inode(true, 0, "", PRIVATE_PERM)]))]
  }

  // The directory right after the exchange.
  function LinkedSwapped(): Dir {
    Dir(map["t" := 1, LinkedStaging() := 0],
      map[0 := Inode(true, 1, "new", PRIVATE_PERM), 1 := Inode(true, 0, "", PRIVATE_PERM)])
  }

  lemma TrackedAtStart(start: Dir, allow: set<Snapshot>, names: set<string>)
    ensures Tracked(start, [], allow, 0, start, names)
  {
  }

  lemma LinkedToSwap()
    ensures var h := LinkedRun();
            Tracked(LinkedStart(), h[..3], {Present(0, "old", PRIVATE_PERM)}, 1, LinkedSwapped(),
              {LinkedStaging(), "t"})
  {
    hide Tracked, LinkedStaging, Replay, LegalRun, Lawful, Stirs, Within;
    var start, h, staging, allow := LinkedStart(), LinkedRun(), LinkedStaging(), {Present(0, "old", PRIVATE_PERM)};
    var names := {staging, "t"};
    TrackedAtStart(start, allow, names);
    assert h[..3] == [] + [h[0]] + [h[1]] + [h[2]];
    var linked := h[0].left;
    assert linked.files[0].outsideLinks != start.files[0].outsideLinks;
    TrackActor(start, [], allow, 0, start, names, linked);
    TrackOwn(start, [] + [h[0]], allow, 1, linked, names, h[1].step);
    var staged := Apply(linked, h[1].step);
    TrackOwn(start, [] + [h[0]] + [h[1]], allow, 1, staged, names, h[2].step);
    assert Apply(staged, h[2].step) == LinkedSwapped();
  }

  lemma LinkedReplay()
    ensures var start, h, allow := LinkedStart(), LinkedRun(), {Present(0, "old", PRIVATE_PERM)};
            && Replay(start, h[..0]) == start && Replay(start, h[..3]) == LinkedSwapped()
            && Replay(start, h) == h[3].left
            && LegalRun(start, h) && Lawful(h, allow) && Touches(h[..2], "t") == []
  {
    hide Tracked, Replay, LegalRun, Lawful, Touches, LinkedSwapped, LinkedStaging;
    var start, h, allow := LinkedStart(), LinkedRun(), {Present(0, "old", PRIVATE_PERM)};
    var names := {LinkedStaging(), "t"};
    assert h[..0] == [] && h == h[..3] + [h[3]] && h[..2] == [] + [h[0]] + [h[1]];
    LinkedToSwap();
    TrackActor(start, h[..3], allow, 1, LinkedSwapped(), names, h[3].left);
    TrackedFacts(start, h[..3], allow, 1, LinkedSwapped(), names);
    TrackedFacts(start, h, allow, if h[3].left == LinkedSwapped() then 1 else 2, h[3].left, names);
    NoEvents(start, "t");
    TouchesOneMore([], h[0], "t");
    TouchesOneMore([] + [h[0]], h[1], "t");
  }

  lemma NoEvents(start: Dir, target: string)
    ensures Replay(start, []) == start && Touches([], target) == []
  {
  }

  lemma TrackedFacts(start: Dir, h: seq<Event>, allow: set<Snapshot>, stirred: nat, d: Dir, names: set<string>)
    requires Tracked(start, h, allow, stirred, d, names)
    ensures d == Replay(start, h) && LegalRun(start, h) && Lawful(h, allow) && Within(h, names)
  {
  }

  /** The escape of SwapJudged is real: in this run, which the actor may bring about, the target
      held something else at the exchange, and what is read back is exactly `expected`. */
  lemma LinkedEditGoesUnseen()
    ensures var start, h, staging, expected :=
              LinkedStart(), LinkedRun(), LinkedStaging(), Present(0, "old", PRIVATE_PERM);
            && Current(start, "t", expected) && LegalRun(start, h) && Lawful(h, {expected}) && Within(h, {staging, "t"})
            && Rely(Replay(start, h[..0]), h[0].left, {}) && Rely(Replay(start, h[..3]), h[3].left, {staging})
            && FirstSwap(h, 2, "t") && h[2].step.displaced != expected && Edited(start, h, 3, 0)
            && Current(Replay(start, h), staging, expected)
  {
    hide Replay, LegalRun, Lawful, Touches, DrawnName;
    LinkedReplay();
    assert "old"[0] != "new"[0];
    assert EditAt(LinkedStart(), LinkedRun(), 3, 0);
  }

  lemma OneFirstSwap(h: seq<Event>, k: nat, m: nat, target: string)
    requires FirstSwap(h, k, target) && FirstSwap(h, m, target)
    ensures k == m
  {
    if k != m {
      var a, b := if k < m then k else m, if k < m then m else k;
      assert h[..a + 1] == h[..a] + [h[a]] && h[..b][..a + 1] == h[..a + 1];
      TouchesOneMore(h[..a], h[a], target);
      TouchesGrow(h[..b], a + 1, target);
      assert false;
    }
  }

  lemma NoFirstSwap(h: seq<Event>, k: nat, target: string)
    requires Touches(h, target) == []
    ensures !FirstSwap(h, k, target)
  {
    if FirstSwap(h, k, target) {
      assert h[..k + 1] == h[..k] + [h[k]];
      TouchesOneMore(h[..k], h[k], target);
      TouchesGrow(h, k + 1, target);
      assert false;
    }
  }

  // After the exchange of `name` and `target` in d.
  lemma ExchangeFacts(d: Dir, drawn: set<string>, name: string, target: string, expected: Snapshot, candidate: Snapshot)
    requires WellFormed(d) && name != target && target in d.names && name in drawn && Holds(d, drawn, name, candidate)
    requires |candidate.data| <= MAX_CONFIG_BYTES
    ensures name in d.names && d.names[name] == candidate.ino != d.names[target]
    ensures var e := Exchanged(d, name, target);
            && name in e.names && e.names[name] == d.names[target] && e.names[name] in e.files
            && Current(e, target, candidate)
            && (Current(e, name, expected) <==> Current(d, target, expected))
  {
    hide Private;
    assert d.names[name] == candidate.ino;
    ExchangeIsSymmetric(d, name, target);
    ExchangeCurrent(d, name, target, candidate);
    ExchangeCurrent(d, target, name, expected);
    HoldsIsReadable(d, drawn, name, candidate);
  }

  lemma JudgedIsUndone(d: Dir, e: Dir, f: Dir, name: string, target: string, expected: Snapshot, candidate: Snapshot,
                       published: Snapshot, ok: bool)
    requires name in d.names && target in d.names && name != target && e == Exchanged(d, name, target)
    requires expected.Present? && candidate.Present? && d.names[name] == candidate.ino
    requires Current(e, name, expected) <==> Current(d, target, expected)
    requires if Current(e, name, expected) then
               ok && published == candidate && f.names == e.names - {name} && SameFiles(e, f, {expected.ino})
             else
               !ok && published == Absent && f.names == e.names[target := e.names[name]] - {name} &&
               SameFiles(e, f, {candidate.ino})
    ensures PublishedOrUndone(d, f, name, target, expected, candidate, published, ok)
  {
    hide Current;
  }

  lemma Swapping(start: Dir, h: seq<Event>, s: Step, more: seq<Event>, stirred: nat, e: Dir, target: string,
                 expected: Snapshot,
                 candidate: Snapshot, published: Snapshot, ok: bool, faultless: bool)
    requires FirstSwap(more, |h|, target) && more[|h|] == Own(s) && more[..|h|] == h && more[..|h| + 1] == h + [Own(s)]
    requires candidate.Present? && expected.Present?
    requires published.Present? ==> s.displaced == expected || Edited(start, more, |h| + 1, expected.ino)
    requires stirred == Stirs(start, more)
    requires faultless && stirred == Stirs(start, h) ==>
               PublishedOrUndone(Replay(start, h), e, s.first, target, expected, candidate, published, ok)
    ensures SwapJudged(start, more, |h|, e, target, expected, candidate, published, ok, faultless)
  {
    hide PublishedOrUndone, Edited, Touches, Replay;
    Extend(start, h, Own(s), {});
  }

  // The candidate was withdrawn without an exchange.
  lemma StillExpected(d: Dir, e: Dir, drawn: set<string>, more: set<string>, name: string, target: string,
                      expected: Snapshot, candidate: Snapshot)
    requires candidate.Present? && Shuffled(d, e, name, more) && SameFiles(d, e, {candidate.ino})
    requires Current(d, target, expected)
    requires expected.Present? && Holds(d, drawn, name, candidate) && name != target && target !in more
    ensures Stands(e, target, expected, Absent)
  {
    hide Private, Shuffled;
    ShuffledKeeps(d, e, name, more, target, expected, candidate.ino);
  }

  lemma SwappedStands(d: Dir, e: Dir, f: Dir, name: string, target: string, expected: Snapshot, candidate: Snapshot,
                      published: Snapshot)
    requires name in d.names && target in d.names && name != target && e == Exchanged(d, name, target)
    requires expected.Present? && candidate.Present? && d.names[name] == candidate.ino && Current(d, target, expected)
    requires candidate.ino != expected.ino
    requires published == candidate || published == Absent
    requires if published.Present? then Current(f, target, candidate)
             else f.names == e.names[target := expected.ino] - {name} && SameFiles(e, f, {candidate.ino})
    ensures Stands(f, target, expected, published)
  {
    if published.Absent? {
      assert f.names == d.names - {name};
      ShuffledKeeps(d, f, name, {}, target, expected, candidate.ino);
    }
  }

  // Where nothing is bound to the target no exchange happens.
  lemma NotExchanged(d: Dir, e: Dir, name: string, target: string, expected: Snapshot, candidate: Snapshot)
    requires target !in d.names && expected.Present? && candidate.Present?
    ensures e.names == d.names - {name} && SameFiles(d, e, {candidate.ino}) ==>
              PublishedOrUndone(d, e, name, target, expected, candidate, Absent, false)
  {
  }

  lemma SwapIsFirst(h: seq<Event>, more: seq<Event>, s: Step, target: string)
    requires s.Swapped? && s.second == target && s.first != target && Touches(h, target) == [] && h + [Own(s)] <= more
    ensures FirstSwap(more, |h|, target) && more[|h|] == Own(s) && more[..|h|] == h && more[..|h| + 1] == h + [Own(s)]
  {
    hide Touches;
    assert more[..|h|] == (h + [Own(s)])[..|h|] == h;
    assert more[..|h| + 1] == h + [Own(s)];
  }

  // What one publish may erase: the file it was told to replace and its own staging file.
  ghost function Licence(expected: Snapshot, staged: Ino, data: string, perm: nat): set<Snapshot> {
    {expected, Present(staged, "", PRIVATE_PERM), Present(staged, data, perm)}
  }

  lemma {:induction false} SomeInoIsFree(s: set<Ino>)
    ensures exists i: Ino :: i !in s
  {
    var bound := InoBound(s);
    assert bound !in s;
  }

  method LongerThanAll(names: set<string>) returns (r: string)
    ensures forall n | n in names :: |n| < |r|
  {
    r := "r";
    var rest := names;
    while rest != {}
      invariant rest <= names && forall n | n in names && n !in rest :: |n| < |r|
    {
      var n :| n in rest;
      rest := rest - {n};
      if |n| >= |r| { r := n + "r"; }
    }
  }

  lemma InoBound(s: set<Ino>) returns (bound: nat)
    ensures forall i | i in s :: i < bound
  {
    bound := 0;
    var rest := s;
    while rest != {}
      invariant rest <= s && forall i | i in s && i !in rest :: i < bound
    {
      var i :| i in rest;
      rest := rest - {i};
      bound := if i < bound then bound else i + 1;
    }
  }

  lemma UnpublishedGrows(h: seq<Event>, e: Event, i: Ino)
    requires Unpublished(h, i) && (e.Own? ==> e.step.Rewrote?)
    ensures Unpublished(h + [e], i)
  {
    var j :| 0 <= j < |h| && h[j].Own? && h[j].step.Created? && h[j].step.ino == i
             && forall m | j < m < |h| :: h[m].Own? ==> h[m].step.Rewrote?;
    assert (h + [e])[j] == h[j];
  }

  lemma NotMoved(before: seq<Step>, target: string, expected: Snapshot)
    ensures RemovalTouches(before, before, target, expected, false)
  {
  }

  lemma HoldsNames(d: Dir, drawn: set<string>, name: string, s: Snapshot)
    requires Holds(d, drawn, name, s)
    ensures name in d.names && d.names[name] == s.ino
  {
  }

  lemma MovedAside(before: seq<Step>, target: string, expected: Snapshot, q: string, i: Ino)
    requires q != target
    ensures RemovalTouches(before, before + [Moved(target, q, i)], target, expected, false)
    ensures RemovalTouches(before, before + [Moved(target, q, i)] + [Moved(q, target, i)], target, expected, false)
  {
    assert before + [Moved(target, q, i)] + [Moved(q, target, i)] ==
      before + [Moved(target, q, i), Moved(q, target, i)];
  }

  lemma CurrentIsBound(d: Dir, name: string, s: Snapshot)
    ensures Current(d, name, s) ==> name in d.names && s == Present(d.names[name], s.data, s.perm)
  {
  }

  lemma CurrentIsReadable(d: Dir, name: string, s: Snapshot)
    ensures Current(d, name, s) ==> Readable(d, name)
  {
  }

  // An exchange back puts the candidate under `name` and what was there under `target`.
  lemma RolledBack(d: Dir, e: Dir, name: string, target: string, candidate: Snapshot)
    requires WellFormed(d) && name in d.names && name != target && Current(d, target, candidate)
    requires d.names[name] != candidate.ino
    requires e.files == d.files && target in d.names
    requires e.names == d.names[name := d.names[target]][target := d.names[name]]
    ensures Current(e, name, candidate) && e.names - {name} == d.names[target := d.names[name]] - {name}
    ensures forall f: Dir, x: set<Ino> :: SameFiles(e, f, x) <==> SameFiles(d, f, x)
  {
    assert e == Exchanged(d, name, target);
    ExchangeIsSymmetric(d, name, target);
    ExchangeCurrent(d, target, name, candidate);
  }

  lemma CurrentIsUnique(d: Dir, name: string, s: Snapshot, t: Snapshot)
    requires Current(d, name, s) && Current(d, name, t)
    ensures s == t
  {
  }

  lemma CurrentMoves(d: Dir, name: string, to: string, s: Snapshot)
    requires Current(d, name, s) && to !in d.names && s.Present?
    ensures Current(Apply(d, Moved(name, to, s.ino)), to, s) && Readable(Apply(d, Moved(name, to, s.ino)), to)
  {
  }

  lemma HoldsIsReadable(d: Dir, drawn: set<string>, name: string, s: Snapshot)
    requires Holds(d, drawn, name, s) && |s.data| <= MAX_CONFIG_BYTES
    ensures Readable(d, name) && Current(d, name, s)
  {
  }

  lemma HoldsIsUnique(d: Dir, drawn: set<string>, name: string, s: Snapshot, t: Snapshot)
    requires Holds(d, drawn, name, s) && Holds(d, drawn, name, t)
    ensures s == t
  {
  }

  lemma CondemnedGrows(h: seq<Event>, more: seq<Event>, i: Ino, allow: set<Snapshot>)
    requires h <= more && Condemned(h, i, allow)
    ensures Condemned(more, i, allow)
  {
  }

  // How a conditional removal may change what `target` is bound to: not at all, one move
  // to a quarantine name, or that move and its exact reversal.
  ghost predicate RemovalTouches(before: seq<Step>, after: seq<Step>, target: string, expected: Snapshot, ok: bool) {
    || (after == before && (ok ==> expected.Absent?))
    || (exists q, i ::
          q != target && after == before + [Moved(target, q, i)] && (ok ==> expected.Present? && i == expected.ino))
    || (!ok && exists q, i :: q != target && after == before + [Moved(target, q, i), Moved(q, target, i)])
  }
}
