/**
 Removing a cloud mount (service/storage.go): the configuration is deleted only on stable
 evidence from both the kernel and rclone that the mount is gone.
 */
module CloudSettle {
  import opened Basics

  // One record of the rclone mount list.
  datatype Record = Record(mountPoint: string, remote: string, path: string)

  // ---------- the order of records ----------

  predicate Before(a: string, b: string) {
    a == "" || (b != "" && (a[0] < b[0] || (a[0] == b[0] && Before(a[1..], b[1..]))))
  }

  lemma {:induction false} BeforeTotal(a: string, b: string)
    ensures Before(a, b) || Before(b, a)
  {
    if a != "" && b != "" && a[0] == b[0] { BeforeTotal(a[1..], b[1..]); }
  }

  lemma {:induction false} BeforeAntisymmetric(a: string, b: string)
    requires Before(a, b) && Before(b, a)
    ensures a == b
  {
    if a != "" && b != "" {
      BeforeAntisymmetric(a[1..], b[1..]);
      assert a == [a[0]] + a[1..] && b == [b[0]] + b[1..];
    }
  }

  lemma {:induction false} BeforeTransitive(a: string, b: string, c: string)
    requires Before(a, b) && Before(b, c)
    ensures Before(a, c)
  {
    if a != "" && a[0] == b[0] == c[0] { BeforeTransitive(a[1..], b[1..], c[1..]); }
  }

  predicate Leq(a: Record, b: Record) {
    if a.mountPoint != b.mountPoint then Before(a.mountPoint, b.mountPoint)
    else if a.remote != b.remote then Before(a.remote, b.remote)
    else Before(a.path, b.path)
  }

  lemma LeqTotal(a: Record, b: Record)
    ensures Leq(a, b) || Leq(b, a)
  {
    BeforeTotal(a.mountPoint, b.mountPoint);
    BeforeTotal(a.remote, b.remote);
    BeforeTotal(a.path, b.path);
  }

  lemma LeqAntisymmetric(a: Record, b: Record)
    requires Leq(a, b) && Leq(b, a)
    ensures a == b
  {
    if a.mountPoint != b.mountPoint { BeforeAntisymmetric(a.mountPoint, b.mountPoint); }
    else if a.remote != b.remote { BeforeAntisymmetric(a.remote, b.remote); }
    else { BeforeAntisymmetric(a.path, b.path); }
  }

  lemma LeqTransitive(a: Record, b: Record, c: Record)
    requires Leq(a, b) && Leq(b, c)
    ensures Leq(a, c)
  {
    hide Before;
    if a.mountPoint != b.mountPoint && b.mountPoint != c.mountPoint {
      BeforeTransitive(a.mountPoint, b.mountPoint, c.mountPoint);
      if a.mountPoint == c.mountPoint { BeforeAntisymmetric(a.mountPoint, b.mountPoint); }
    } else if a.mountPoint == b.mountPoint == c.mountPoint {
      if a.remote != b.remote && b.remote != c.remote {
        BeforeTransitive(a.remote, b.remote, c.remote);
        if a.remote == c.remote { BeforeAntisymmetric(a.remote, b.remote); }
      } else if a.remote == b.remote == c.remote {
        BeforeTransitive(a.path, b.path, c.path);
      }
    }
  }

  ghost predicate Sorted(s: seq<Record>) {
    forall i, k | 0 <= i < k < |s| :: Leq(s[i], s[k])
  }

  // canonicalCloudMountTopology: the insertion of one record
  method Insert(s: seq<Record>, x: Record) returns (r: seq<Record>)
    requires Sorted(s)
    ensures Sorted(r) && multiset(r) == multiset(s) + multiset{x}
  {
    hide Leq, Sorted;
    var i := |s|;
    while i > 0 && !Leq(s[i - 1], x)
      invariant 0 <= i <= |s| && forall k | i <= k < |s| :: Leq(x, s[k])
    {
      LeqTotal(s[i - 1], x);
      i := i - 1;
    }
    r := s[..i] + [x] + s[i..];
    InsertedSorted(s, x, i);
    InsertedOnce(s, x, i);
  }

  lemma InsertedSorted(s: seq<Record>, x: Record, i: nat)
    requires Sorted(s) && i <= |s| && (i > 0 ==> Leq(s[i - 1], x)) && forall k | i <= k < |s| :: Leq(x, s[k])
    ensures Sorted(s[..i] + [x] + s[i..])
  {
    hide Leq;
    var r := s[..i] + [x] + s[i..];
    forall p, q | 0 <= p < q < |r| ensures Leq(r[p], r[q]) {
      assert r[p] == if p < i then s[p] else if p == i then x else s[p - 1];
      assert r[q] == if q < i then s[q] else if q == i then x else s[q - 1];
      if p < i && q == i && p < i - 1 { LeqTransitive(s[p], s[i - 1], x); }
    }
  }

  lemma InsertedOnce(s: seq<Record>, x: Record, i: nat)
    requires i <= |s|
    ensures multiset(s[..i] + [x] + s[i..]) == multiset(s) + multiset{x}
  {
    assert s == s[..i] + s[i..];
  }

  method Sort(s: seq<Record>) returns (r: seq<Record>)
    ensures Sorted(r) && multiset(r) == multiset(s)
  {
    hide Leq;
    r := [];
    for i := 0 to |s|
      invariant Sorted(r) && multiset(r) == multiset(s[..i])
    {
      assert s[..i + 1] == s[..i] + [s[i]];
      r := Insert(r, s[i]);
    }
    assert s[..|s|] == s;
  }

  lemma {:induction false} SortedIsUnique(a: seq<Record>, b: seq<Record>)
    requires Sorted(a) && Sorted(b) && multiset(a) == multiset(b)
    ensures a == b
    decreases |a|
  {
    hide Leq, Sorted;
    if a == [] {
      assert multiset(b) == multiset{};
      assert b == [];
    } else {
      assert a[0] in multiset(a) && a[0] in multiset(b);
      assert b != [];
      assert b[0] in multiset(b) && b[0] in multiset(a);
      HeadIsLeast(a, b[0]);
      HeadIsLeast(b, a[0]);
      LeqAntisymmetric(a[0], b[0]);
      TailOf(a);
      TailOf(b);
      SortedIsUnique(a[1..], b[1..]);
    }
  }

  lemma TailOf(s: seq<Record>)
    requires s != [] && Sorted(s)
    ensures s == [s[0]] + s[1..] && multiset(s[1..]) == multiset(s) - multiset{s[0]} && Sorted(s[1..])
  {
    hide Leq;
    assert s == [s[0]] + s[1..];
  }

  lemma HeadIsLeast(s: seq<Record>, x: Record)
    requires Sorted(s) && x in s
    ensures Leq(s[0], x)
  {
    var i :| 0 <= i < |s| && s[i] == x;
    if i == 0 { LeqTotal(x, x); }
  }

  /** sameCloudMountTopology: exactly when the two lists hold the same records equally often. */
  method SameTopology(first: seq<Record>, second: seq<Record>) returns (same: bool)
    ensures same <==> multiset(first) == multiset(second)
  {
    hide Leq, Sorted;
    var left := Sort(first);
    var right := Sort(second);
    if multiset(first) == multiset(second) { SortedIsUnique(left, right); }
    if |left| != |right| { return false; }
    for i := 0 to |left|
      invariant left[..i] == right[..i]
    {
      if left[i] != right[i] { return false; }
    }
    assert left[..|left|] == left && right[..|right|] == right;
    return true;
  }

  // ---------- the mount list ----------

  ghost predicate Clashes(r: Record, mountPoint: string, remote: string) {
    || (r.mountPoint == mountPoint && r.remote != remote)
    || (r.remote == remote && (r.path != "" || r.mountPoint != mountPoint))
  }

  // The list says clearly whether exactly this remote is mounted at exactly this path.
  ghost predicate Clear(list: seq<Record>, mountPoint: string, remote: string) {
    && (forall i | 0 <= i < |list| :: !Clashes(list[i], mountPoint, remote))
    && (forall i, k | 0 <= i < k < |list| :: !(list[i].remote == remote && list[k].remote == remote))
  }

  ghost predicate Lists(list: seq<Record>, mountPoint: string, remote: string) {
    Record(mountPoint, remote, "") in list
  }

  // mountListContains
  method Contains(list: seq<Record>, mountPoint: string, remote: string) returns (r: Option<bool>)
    ensures r.Some? <==> Clear(list, mountPoint, remote)
    ensures r.Some? ==> (r.value <==> Lists(list, mountPoint, remote))
  {
    var found := false;
    for i := 0 to |list|
      invariant forall k | 0 <= k < i :: !Clashes(list[k], mountPoint, remote)
      invariant forall k, m | 0 <= k < m < i :: !(list[k].remote == remote && list[m].remote == remote)
      invariant found <==> exists k | 0 <= k < i :: list[k].remote == remote
      invariant found <==> Record(mountPoint, remote, "") in list[..i]
    {
      var m := list[i];
      assert list[..i + 1] == list[..i] + [m];
      if m.mountPoint == mountPoint && m.remote != remote { return None; }
      if m.remote != remote { continue; }
      if m.path != "" || m.mountPoint != mountPoint || found { return None; }
      found := true;
    }
    assert list[..|list|] == list;
    return Some(found);
  }

  // ---------- frames ----------

  // The kernel's answer between two answers of rclone.
  datatype Frame = Frame(before: Option<seq<Record>>, mounted: Option<bool>, after: Option<seq<Record>>)

  // Both authorities agree, and rclone said the same before and after.
  ghost predicate Agrees(f: Frame, mountPoint: string, remote: string, expected: bool) {
    && f.before.Some? && f.after.Some? && f.mounted == Some(expected)
    && Clear(f.before.value, mountPoint, remote) && Clear(f.after.value, mountPoint, remote)
    && multiset(f.before.value) == multiset(f.after.value)
    && (Lists(f.after.value, mountPoint, remote) <==> expected)
  }

  ghost predicate Confused(f: Frame, mountPoint: string, remote: string) {
    f.before.Some? && f.after.Some? &&
      !(Clear(f.before.value, mountPoint, remote) && Clear(f.after.value, mountPoint, remote))
  }

  lemma SameLists(a: seq<Record>, b: seq<Record>, mountPoint: string, remote: string)
    requires multiset(a) == multiset(b)
    ensures Lists(a, mountPoint, remote) <==> Lists(b, mountPoint, remote)
  {
    var r := Record(mountPoint, remote, "");
    assert (r in a <==> r in multiset(a)) && (r in b <==> r in multiset(b));
  }

  // What the rest of the system answers to the k-th request of a run: the check of the
  // configuration, its directory or the lease; a mount list and the kernel's state; a whole
  // frame; the deletion; the list of remotes.  Then the time it takes, and how a wait that
  // follows it goes.
  datatype Answer = Answer(fine: bool, list: Option<seq<Record>>, mounted: Option<bool>, stale: bool, frame: Frame,
                           deleted: bool, held: Option<bool>,
                           elapsed: nat, cancelled: bool, interrupted: bool, longer: nat)

  // What happened, in order.
  datatype Event =
    | Checked(fine: bool)
    | Listed(list: Option<seq<Record>>, mounted: Option<bool>, stale: bool)
    | Unmount
    | Saw(frame: Frame)
    | Delete(answered: bool)
    | Remotes(held: Option<bool>)

  ghost predicate Told(a: Answer, e: Event) {
    match e
    case Checked(fine) => fine == a.fine
    case Listed(list, mounted, stale) => list == a.list && mounted == a.mounted && stale == a.stale
    case Unmount => true
    case Saw(frame) => frame == a.frame
    case Delete(answered) => answered == a.deleted
    case Remotes(held) => held == a.held
  }

  ghost predicate TwoFrames(log: seq<Event>, mountPoint: string, remote: string, expected: bool) {
    && |log| >= 2 && log[|log| - 2].Saw? && log[|log| - 1].Saw?
    && Agrees(log[|log| - 2].frame, mountPoint, remote, expected)
    && Agrees(log[|log| - 1].frame, mountPoint, remote, expected)
  }

  ghost predicate AgreeAt(log: seq<Event>, i: nat, mountPoint: string, remote: string, expected: bool)
    requires i + 1 < |log|
  {
    log[i].Saw? && log[i + 1].Saw? && Agrees(log[i].frame, mountPoint, remote, expected) &&
      Agrees(log[i + 1].frame, mountPoint, remote, expected)
  }

  lemma ConfusedDisagrees(f: Frame, mountPoint: string, remote: string, expected: bool)
    requires Confused(f, mountPoint, remote)
    ensures !Agrees(f, mountPoint, remote, expected)
  {
  }

  // Whether a list and the kernel's answer, which may be an error, permit an unmount: the
  // list must be clear, may not miss a mount that is there, and only a listed mount whose
  // error is the stale one may do without the kernel's answer.
  ghost predicate Permits(e: Event, mountPoint: string, remote: string) {
    && e.Listed? && e.list.Some? && Clear(e.list.value, mountPoint, remote)
    && (e.mounted.Some? || (Lists(e.list.value, mountPoint, remote) && e.stale))
    && (e.mounted == Some(true) ==> Lists(e.list.value, mountPoint, remote))
  }

  // It permits one, and shows what is to be unmounted.
  ghost predicate Shows(e: Event, mountPoint: string, remote: string) {
    Permits(e, mountPoint, remote) && Lists(e.list.value, mountPoint, remote)
  }

  // The n checks from position `from` on were made and are fine.
  ghost predicate Approved(log: seq<Event>, from: nat, n: nat) {
    from + n <= |log| && forall i | from <= i < from + n :: log[i] == Checked(true)
  }

  // Up to n checks were made, the first bad one being the last.
  ghost predicate CheckedUpTo(was: seq<Event>, log: seq<Event>, n: nat) {
    && was <= log && |log| <= |was| + n && (forall i | |was| <= i < |log| - 1 :: log[i] == Checked(true))
    && (|log| == |was| + n || (log != [] && |log| > |was|))
    && (|log| > |was| ==> log[|log| - 1].Checked? && (|log| < |was| + n ==> log[|log| - 1] == Checked(false)))
  }

  // Frames were taken until two in a row agreed, one was confused, or for as long as allowed.
  ghost predicate Sampled(was: seq<Event>, log: seq<Event>, mountPoint: string, remote: string) {
    && was < log && OnlyFrames(log[|was|..])
    && NoneAgree(log, |was|, |log| - 2, mountPoint, remote, false)
    && Usual(log[..|log| - 1], |was|, mountPoint, remote)
  }

  // No two frames in a row agree that start from `from` on and before `end`.
  ghost predicate NoneAgree(log: seq<Event>, from: nat, end: int, mountPoint: string, remote: string, expected: bool) {
    forall i | from <= i < end && i + 1 < |log| :: !AgreeAt(log, i, mountPoint, remote, expected)
  }

  // From `from` on there are only frames, none of them confused.
  ghost predicate Usual(log: seq<Event>, from: nat, mountPoint: string, remote: string) {
    forall i | from <= i < |log| :: log[i].Saw? && !Confused(log[i].frame, mountPoint, remote)
  }

  ghost predicate LastAgrees(log: seq<Event>, mountPoint: string, remote: string, expected: bool) {
    log != [] && log[|log| - 1].Saw? && Agrees(log[|log| - 1].frame, mountPoint, remote, expected)
  }

  // An attempt to unmount: three checks, the list, the unmount exactly if the list shows the
  // mount, and then frames; it goes no further than the answers permit, and that far.
  ghost predicate UnmountRun(was: seq<Event>, log: seq<Event>, mountPoint: string, remote: string) {
    var at := |was| + 3;
    if !Approved(log, |was|, 3) then CheckedUpTo(was, log, 3)
    else
      && was < log && |log| > at && log[at].Listed?
      && if !Permits(log[at], mountPoint, remote) then |log| == at + 1
         else if !Shows(log[at], mountPoint, remote) then Sampled(log[..at + 1], log, mountPoint, remote)
         else |log| > at + 1 && log[at + 1] == Unmount && Sampled(log[..at + 2], log, mountPoint, remote)
  }

  // The checks and the list permitted it, and two frames agree that nothing is mounted.
  ghost predicate Unmounted(was: seq<Event>, log: seq<Event>, mountPoint: string, remote: string) {
    && Approved(log, |was|, 3) && |log| > |was| + 3 && Permits(log[|was| + 3], mountPoint, remote)
    && TwoFrames(log, mountPoint, remote, false)
  }

  // An attempt to delete: two checks, frames up to position f, and then, exactly if two of
  // them agree on absence, the request, whose lost answer is settled by the list of remotes.
  ghost predicate DeleteRun(was: seq<Event>, f: nat, log: seq<Event>, mountPoint: string, remote: string, ok: bool) {
    if !Approved(log, |was|, 2) then CheckedUpTo(was, log, 2) && f == |log| && !ok
    else
      && was <= log && |was| + 2 <= f <= |log| && Sampled(log[..|was| + 2], log[..f], mountPoint, remote)
      && if !TwoFrames(log[..f], mountPoint, remote, false) then f == |log| && !ok
         else
           && f < |log| && log[f].Delete?
           && if log[f].answered then |log| == f + 1 && ok
              else |log| == f + 2 && log[f + 1].Remotes? && (ok <==> log[f + 1].held == Some(false))
  }

  // Everything that must hold for the request to delete: the configuration is unchanged, the
  // unmount settled by position m, the three checks after it, and two further frames that
  // agree on absence right before position f.
  ghost predicate Deletable(was: seq<Event>, m: nat, f: nat, log: seq<Event>, mountPoint: string, remote: string) {
    && Approved(log, |was|, 1) && |was| + 1 <= m && m + 3 < f <= |log|
    && Unmounted(log[..|was| + 1], log[..m], mountPoint, remote)
    && Approved(log, m, 3) && TwoFrames(log[..f], mountPoint, remote, false)
  }

  // A removal: the configuration is read, the unmount ends at position m, and only if it
  // settled is the configuration read again; only if that is fine too is a deletion tried,
  // whose frames end at position f.
  ghost predicate RemoveRun(was: seq<Event>, m: nat, f: nat, log: seq<Event>, mountPoint: string, remote: string,
                            ok: bool) {
    && was < log && |was| < m <= f <= |log|
    && if !Approved(log, |was|, 1) then log == was + [Checked(false)] && !ok
       else
         && UnmountRun(log[..|was| + 1], log[..m], mountPoint, remote)
         && if !Unmounted(log[..|was| + 1], log[..m], mountPoint, remote) then |log| == m && !ok
            else
              && m < |log| && log[m].Checked?
              && if log[m].fine then DeleteRun(log[..m + 1], f, log, mountPoint, remote, ok) else |log| == m + 1 && !ok
  }

  // The unmount was issued.
  ghost predicate Issued(was: seq<Event>, log: seq<Event>, mountPoint: string, remote: string) {
    Approved(log, |was|, 4) && |log| > |was| + 4 && Shows(log[|was| + 4], mountPoint, remote)
  }

  // From position `from` on every answer is the one hoped for, and comes in time.
  ghost predicate Smooth(answers: nat -> Answer, from: nat, mountPoint: string, remote: string, interval: nat,
                         timeout: nat) {
    forall i: nat | i >= from :: SmoothAt(answers(i), mountPoint, remote, interval, timeout)
  }

  ghost predicate SmoothAt(a: Answer, mountPoint: string, remote: string, interval: nat, timeout: nat) {
    && a.fine && Permits(Listed(a.list, a.mounted, a.stale), mountPoint, remote)
    && Agrees(a.frame, mountPoint, remote, false) && a.deleted && Prompt(a, interval, timeout)
  }

  ghost predicate Prompt(a: Answer, interval: nat, timeout: nat) {
    !a.cancelled && !a.interrupted && a.elapsed + interval + a.longer < timeout
  }

  // Every deletion directly follows two frames that agree on absence, and every unmount a
  // list that shows the mount.
  ghost predicate Gated(log: seq<Event>, mountPoint: string, remote: string) {
    forall i: nat | i < |log| :: GatedAt(log, i, mountPoint, remote)
  }

  ghost predicate GatedAt(log: seq<Event>, i: nat, mountPoint: string, remote: string)
    requires i < |log|
  {
    && (log[i].Delete? ==> TwoFrames(log[..i], mountPoint, remote, false))
    && (log[i].Unmount? ==> i > 0 && Shows(log[i - 1], mountPoint, remote))
  }

  datatype Kind = Unmounting | Deleting

  predicate Is(e: Event, kind: Kind) {
    if kind == Unmounting then e.Unmount? else e.Delete?
  }

  function Count(log: seq<Event>, kind: Kind): nat {
    if log == [] then 0 else Count(log[..|log| - 1], kind) + if Is(log[|log| - 1], kind) then 1 else 0
  }

  ghost predicate OnlyFrames(log: seq<Event>) {
    forall i | 0 <= i < |log| :: log[i].Saw?
  }

  ghost predicate EndsConfused(log: seq<Event>, mountPoint: string, remote: string) {
    log != [] && log[|log| - 1].Saw? && Confused(log[|log| - 1].frame, mountPoint, remote)
  }

  // How long n waits of the given length take.
  ghost function Waits(n: nat, length: nat): nat { n * length }

  lemma OneMoreWait(n: nat, length: nat)
    ensures Waits(0, length) == 0 && Waits(n + 1, length) == Waits(n, length) + length
  {
  }

  // The time after n samples from position `from` on, each followed by a wait until the next
  // or the deadline.
  ghost function Clock(answers: nat -> Answer, from: nat, n: nat, start: nat, deadline: nat, interval: nat): nat {
    if n == 0 then start
    else
      var a := answers(from + n - 1);
      var t := Clock(answers, from, n - 1, start, deadline, interval) + a.elapsed;
      if t >= deadline then t else t + Least(interval, deadline - t) + a.longer
  }

  function Least(a: nat, b: nat): nat { if a < b then a else b }

  // How the wait for a state ended.
  datatype Outcome = Converged | Unsafe | TimedOut | Cancelled

  class Cloud {
    const mountPoint: string
    const remote: string
    const timeout: nat
    const interval: nat
    const answers: nat -> Answer

    var now: nat
    var log: seq<Event>

    // The run so far is one that the answers and the two gates allow.
    ghost predicate Valid()
      reads this`log
    {
      && timeout >= 1 && 1 <= interval <= timeout && Gated(log, mountPoint, remote)
      && forall i | 0 <= i < |log| :: Told(answers(i), log[i])
    }

    constructor (mountPoint: string, remote: string, timeout: nat, interval: nat, answers: nat -> Answer)
      requires timeout >= 1 && 1 <= interval <= timeout
      ensures Valid() && log == [] && this.mountPoint == mountPoint && this.remote == remote
      ensures this.timeout == timeout && this.interval == interval && this.answers == answers
    {
      this.mountPoint, this.remote, this.timeout, this.interval := mountPoint, remote, timeout, interval;
      this.answers, now, log := answers, 0, [];
    }

    method Note(e: Event)
      requires Valid() && Told(answers(|log|), e)
      requires e.Delete? ==> TwoFrames(log, mountPoint, remote, false)
      requires e.Unmount? ==> log != [] && Shows(log[|log| - 1], mountPoint, remote)
      modifies this
      ensures Valid() && log == old(log) + [e] && now == old(now) + answers(|old(log)|).elapsed
    {
      hide Gated, TwoFrames, Shows, Permits;
      GatedOneMore(log, e, mountPoint, remote);
      now := now + answers(|log|).elapsed;
      log := log + [e];
    }

    // Up to n reads of the configuration, its directory or the lease.
    method Check(n: nat) returns (fine: bool)
      requires Valid() && n > 0
      modifies this
      ensures Valid() && |log| > |old(log)| && CheckedUpTo(old(log), log, n) && (fine <==> Approved(log, |old(log)|, n))
      ensures forall kind :: Count(log, kind) == Count(old(log), kind)
      ensures Smooth(answers, |old(log)|, mountPoint, remote, interval, timeout) ==> fine
    {
      hide Gated, TwoFrames, Permits, Count, Agrees, Prompt;
      for k := 0 to n
        invariant Valid() && |log| == |old(log)| + k && old(log) <= log && Approved(log, |old(log)|, k)
        invariant forall kind :: Count(log, kind) == Count(old(log), kind)
      {
        var a := answers(|log|);
        ghost var before := log;
        Note(Checked(a.fine));
        forall kind ensures Count(log, kind) == Count(before, kind) {
          CountOneMore(before, Checked(a.fine), kind);
        }
        if !a.fine {
          assert !SmoothAt(answers(|before|), mountPoint, remote, interval, timeout);
          assert log[|before|] == Checked(false);
          return false;
        }
      }
      fine := true;
    }

    // observeCloudMountState
    method Observe(expected: bool) returns (agrees: bool, confused: bool)
      requires Valid()
      modifies this
      ensures Valid() && now == old(now) + answers(|old(log)|).elapsed
      ensures log == old(log) + [Saw(answers(|old(log)|).frame)]
      ensures agrees <==> Agrees(log[|old(log)|].frame, mountPoint, remote, expected)
      ensures confused <==> Confused(log[|old(log)|].frame, mountPoint, remote)
    {
      hide Gated, Clear, Lists;
      var frame := answers(|log|).frame;
      Note(Saw(frame));
      agrees, confused := false, false;
      if frame.before.None? || frame.after.None? { return; }
      var listedBefore := Contains(frame.before.value, mountPoint, remote);
      var listedAfter := Contains(frame.after.value, mountPoint, remote);
      if listedBefore.None? || listedAfter.None? { return false, true; }
      var same := SameTopology(frame.before.value, frame.after.value);
      if same { SameLists(frame.before.value, frame.after.value, mountPoint, remote); }
      if !same || listedBefore != listedAfter { return; }
      agrees := frame.mounted == Some(expected) && listedAfter.value == expected;
    }

    // Two frames that agree and come in time.
    ghost predicate Ready(from: nat, expected: bool) {
      && Agrees(answers(from).frame, mountPoint, remote, expected)
      && Agrees(answers(from + 1).frame, mountPoint, remote, expected) && Prompt(answers(from), interval, timeout)
    }

    /** settleCloudMountState: it ends after at most one sample per interval and one more, and
        converges exactly when two consecutive frames show both authorities reporting the
        expected state with equal bracketing topologies; a contradictory list ends it at once,
        and nothing else does but a cancellation or the deadline. */
    method Settle(expected: bool) returns (outcome: Outcome, samples: nat)
      requires Valid()
      modifies this
      ensures Valid() && |log| == |old(log)| + samples && old(log) <= log && OnlyFrames(log[|old(log)|..])
      ensures samples >= 1 && Waits(samples - 1, interval) < timeout
      ensures outcome == Converged <==> samples >= 2 && AgreeAt(log, |log| - 2, mountPoint, remote, expected)
      ensures outcome == Unsafe <==> EndsConfused(log, mountPoint, remote)
      ensures outcome == Cancelled ==> answers(|log| - 1).cancelled || answers(|log| - 1).interrupted
      ensures outcome == TimedOut ==>
                now == Clock(answers, |old(log)|, samples, old(now), old(now) + timeout, interval) >= old(now) + timeout
      ensures NoneAgree(log, |old(log)|, |log| - 2, mountPoint, remote, expected)
      ensures Usual(log[..|log| - 1], |old(log)|, mountPoint, remote)
      ensures Ready(|old(log)|, expected) ==> outcome == Converged && samples == 2
    {
      hide Valid, Agrees, Confused, Waits, Clock, Usual, NoneAgree, AgreeAt, Prompt, EndsConfused, LastAgrees;
      hide OnlyFrames, Ready;
      Settings();
      ReadyFacts(|log|, expected);
      OneMoreWait(0, interval);
      var deadline := now + timeout;
      outcome, samples := TimedOut, 0;
      var consecutive := 0;
      ClockStarts(answers, |log|, now, deadline, interval);
      NoFrames(log, mountPoint, remote, expected);
      while now < deadline
        invariant Valid() && |log| == |old(log)| + samples && old(log) <= log && outcome == TimedOut
        invariant Usual(log, |old(log)|, mountPoint, remote)
        invariant NoneAgree(log, |old(log)|, |log| - 1, mountPoint, remote, expected)
        invariant 0 <= consecutive <= 1 && consecutive <= samples
        invariant now == Clock(answers, |old(log)|, samples, old(now), deadline, interval)
        invariant (samples == 0 ==> now == old(now)) && (now >= deadline || now >= old(now) + Waits(samples, interval))
        invariant samples > 0 ==> Waits(samples - 1, interval) < timeout
        invariant samples > 0 ==> (consecutive == 1 <==> LastAgrees(log, mountPoint, remote, expected))
        invariant Ready(|old(log)|, expected) ==> samples <= 1 && consecutive == samples && now < deadline
        invariant samples > 0 ==> log[|log| - 1].Saw?
        decreases deadline - now
      {
        ghost var earlier := log;
        var agrees, confused := Observe(expected);
        samples := samples + 1;
        OneMoreFrame(earlier, log, |old(log)|, mountPoint, remote, expected);
        ClockTicks(answers, |old(log)|, samples, old(now), deadline, interval);
        UsualFrames(log, |old(log)|, mountPoint, remote);
        if confused { return Unsafe, samples; }
        if agrees {
          consecutive := consecutive + 1;
          if consecutive >= 2 { return Converged, samples; }
        } else {
          consecutive := 0;
        }
        var a := answers(|log| - 1);
        PromptFacts(a, interval, timeout);
        if a.cancelled { return Cancelled, samples; }
        if now >= deadline { return; }
        var delay := if interval > deadline - now then deadline - now else interval;
        // a wait that ends normally lasts at least the delay asked for
        OneMoreWait(samples - 1, interval);
        if a.interrupted { return Cancelled, samples; }
        now := now + delay + a.longer;
      }
      Unsettled(log, |old(log)|, mountPoint, remote, expected);
    }

    lemma Settings()
      requires Valid()
      ensures timeout >= 1 && 1 <= interval <= timeout
    {
      hide Gated;
    }

    lemma ReadyFacts(from: nat, expected: bool)
      ensures Ready(from, expected) ==>
                && Agrees(answers(from).frame, mountPoint, remote, expected)
                && Agrees(answers(from + 1).frame, mountPoint, remote, expected)
                && Prompt(answers(from), interval, timeout)
    {
    }

    // Absence, with what the callers below need to know about it.
    method SettleAbsent() returns (ok: bool)
      requires Valid() && log != [] && !log[|log| - 1].Saw?
      modifies this
      ensures Valid() && Sampled(old(log), log, mountPoint, remote)
      ensures ok <==> TwoFrames(log, mountPoint, remote, false)
      ensures forall kind :: Count(log, kind) == Count(old(log), kind)
      ensures Smooth(answers, |old(log)|, mountPoint, remote, interval, timeout) ==> ok
    {
      hide Gated, Agrees, Confused, Waits, Clock, Count, Permits, EndsConfused;
      ghost var from := |log|;
      var outcome, _ := Settle(false);
      if Smooth(answers, from, mountPoint, remote, interval, timeout) {
        assert SmoothAt(answers(from), mountPoint, remote, interval, timeout);
        assert SmoothAt(answers(from + 1), mountPoint, remote, interval, timeout);
      }
      FramesCountNothing(old(log), log);
      ok := outcome == Converged;
    }

    // unmountStorageLocked
    method UnmountStorage() returns (ok: bool)
      requires Valid()
      modifies this
      ensures Valid() && old(log) < log && UnmountRun(old(log), log, mountPoint, remote)
      ensures ok <==> Unmounted(old(log), log, mountPoint, remote)
      ensures Count(log, Deleting) == Count(old(log), Deleting)
      ensures Count(log, Unmounting) == Count(old(log), Unmounting) +
                if Approved(log, |old(log)|, 3) && Shows(log[|old(log)| + 3], mountPoint, remote) then 1 else 0
      ensures Smooth(answers, |old(log)|, mountPoint, remote, interval, timeout) ==> ok
    {
      hide Valid, TwoFrames, Clear, Lists, Count, Sampled, Approved, CheckedUpTo, UnmountRun, Unmounted, Smooth;
      hide SmoothAt, Shows;
      ghost var was := log;
      SmoothLater(answers, |was|, mountPoint, remote, interval, timeout);
      ok := Check(3);
      if !ok {
        StopsChecking(was, log, mountPoint, remote);
        return;
      }
      ghost var checked := log;
      var a := answers(|log|);
      SmoothHere(answers, |was|, |log|, mountPoint, remote, interval, timeout);
      var e := Listed(a.list, a.mounted, a.stale);
      Note(e);
      CountOneMore(checked, e, Deleting);
      CountOneMore(checked, e, Unmounting);
      ghost var shown := log;
      var listed := None;
      if a.list.Some? { listed := Contains(a.list.value, mountPoint, remote); }
      ok := listed.Some? && (a.mounted.Some? || (listed.value && a.stale)) &&
        (a.mounted == Some(true) ==> listed.value);
      if !ok {
        StopsListing(was, checked, log, mountPoint, remote);
        return;
      }
      ShowsIff(e, mountPoint, remote);
      if listed.value {
        Note(Unmount);
        CountOneMore(shown, Unmount, Deleting);
        CountOneMore(shown, Unmount, Unmounting);
      }
      ghost var tried := log;
      ok := SettleAbsent();
      Unmounts(was, checked, e, tried, log, mountPoint, remote);
    }

    /** RemoveStorage: the configuration is deleted, and then once, exactly when it read back
        unchanged before and after an unmount that settled by position m, and two further
        frames agree on absence right before position f; the call succeeds exactly when the
        deletion in addition was answered or the remote is gone from the list.  The unmount is
        issued exactly when the list shows this mount and permits it. */
    method RemoveStorage() returns (ok: bool, ghost m: nat, ghost f: nat)
      requires Valid()
      modifies this
      ensures Valid() && RemoveRun(old(log), m, f, log, mountPoint, remote, ok)
      ensures Count(log, Deleting) == Count(old(log), Deleting) +
                if Deletable(old(log), m, f, log, mountPoint, remote) then 1 else 0
      ensures ok <==> && Deletable(old(log), m, f, log, mountPoint, remote) && f < |log|
                      && (log[f] == Delete(true) || log[|log| - 1] == Remotes(Some(false)))
      ensures Count(log, Unmounting) == Count(old(log), Unmounting) +
                if Issued(old(log), log, mountPoint, remote) then 1 else 0
      ensures Smooth(answers, |old(log)|, mountPoint, remote, interval, timeout) ==> ok
    {
      hide Valid, TwoFrames, Permits, Shows, Count, Sampled, Smooth, Approved, CheckedUpTo, Unmounted, UnmountRun;
      hide DeleteRun, RemoveRun, Deletable, Issued;
      ghost var was := log;
      SmoothLater(answers, |was|, mountPoint, remote, interval, timeout);
      ok := Check(1);
      m, f := |log|, |log|;
      OneCheck(was, log, ok);
      if !ok {
        StopsAtOnce(was, log, mountPoint, remote);
        return;
      }
      ghost var first := log;
      ok := UnmountStorage();
      m, f := |log|, |log|;
      ghost var settled := log;
      if !ok {
        StopsUnmounting(was, first, log, mountPoint, remote);
        return;
      }
      ok := Check(1);
      f := |log|;
      OneCheck(settled, log, ok);
      if !ok {
        StopsRereading(was, first, settled, log, mountPoint, remote);
        return;
      }
      ghost var again := log;
      ok, f := DeleteConfig();
      Removes(was, first, settled, again, log, f, mountPoint, remote, ok);
    }

    // deleteConfigByNameLocked: the request is made once, whatever its answer
    method DeleteConfig() returns (ok: bool, ghost f: nat)
      requires Valid()
      modifies this
      ensures Valid() && f <= |log| && DeleteRun(old(log), f, log, mountPoint, remote, ok)
      ensures Count(log, Unmounting) == Count(old(log), Unmounting)
      ensures Count(log, Deleting) == Count(old(log), Deleting) +
                if Approved(log, |old(log)|, 2) && TwoFrames(log[..f], mountPoint, remote, false) then 1 else 0
      ensures Smooth(answers, |old(log)|, mountPoint, remote, interval, timeout) ==> ok
    {
      hide Gated, TwoFrames, Permits, Count, Sampled, Agrees, Prompt;
      ok := Check(2);
      f := |log|;
      if !ok { return; }
      ghost var checked := log;
      ok := SettleAbsent();
      SampledExtends(checked, log, mountPoint, remote);
      f := |log|;
      ghost var settled := log;
      assert log[..f] == log && log[..|checked|] == checked;
      if !ok { return; }
      var a := answers(|log|);
      ghost var smooth := Smooth(answers, |old(log)|, mountPoint, remote, interval, timeout);
      assert smooth ==> SmoothAt(answers(|settled|), mountPoint, remote, interval, timeout);
      Note(Delete(a.deleted));
      CountOneMore(settled, Delete(a.deleted), Deleting);
      CountOneMore(settled, Delete(a.deleted), Unmounting);
      assert log[..f] == settled && log[..|checked|] == checked;
      if a.deleted { return; }
      // a lost answer is settled by the list of remotes
      var held := answers(|log|).held;
      ghost var asked := log;
      Note(Remotes(held));
      CountOneMore(asked, Remotes(held), Deleting);
      CountOneMore(asked, Remotes(held), Unmounting);
      assert log[..f] == settled && log[..|checked|] == checked;
      ok := held == Some(false);
    }
  }

  lemma SmoothLater(answers: nat -> Answer, from: nat, mountPoint: string, remote: string, interval: nat, timeout: nat)
    ensures Smooth(answers, from, mountPoint, remote, interval, timeout) ==>
              forall later: nat | later >= from :: Smooth(answers, later, mountPoint, remote, interval, timeout)
  {
    hide SmoothAt;
  }

  lemma OneCheck(was: seq<Event>, log: seq<Event>, fine: bool)
    requires CheckedUpTo(was, log, 1) && (fine <==> Approved(log, |was|, 1))
    ensures log == was + [Checked(fine)]
  {
  }

  lemma SmoothHere(answers: nat -> Answer, from: nat, at: nat, mountPoint: string, remote: string, interval: nat,
                   timeout: nat)
    requires at >= from
    ensures Smooth(answers, from, mountPoint, remote, interval, timeout) ==>
              var a := answers(at);
              a.fine && a.deleted && Permits(Listed(a.list, a.mounted, a.stale), mountPoint, remote)
  {
    hide Agrees, Prompt, Permits;
    if Smooth(answers, from, mountPoint, remote, interval, timeout) {
      assert SmoothAt(answers(at), mountPoint, remote, interval, timeout);
    }
  }

  lemma ShowsIff(e: Event, mountPoint: string, remote: string)
    requires Permits(e, mountPoint, remote)
    ensures Shows(e, mountPoint, remote) <==> Lists(e.list.value, mountPoint, remote)
  {
  }

  lemma StopsChecking(was: seq<Event>, log: seq<Event>, mountPoint: string, remote: string)
    requires CheckedUpTo(was, log, 3) && !Approved(log, |was|, 3)
    ensures was < log && UnmountRun(was, log, mountPoint, remote) && !Unmounted(was, log, mountPoint, remote)
  {
    hide TwoFrames, Permits;
    if |log| == |was| { assert false; }
  }

  lemma StopsListing(was: seq<Event>, checked: seq<Event>, log: seq<Event>, mountPoint: string, remote: string)
    requires CheckedUpTo(was, checked, 3) && Approved(checked, |was|, 3) && |log| == |checked| + 1
    requires log[..|checked|] == checked && log[|checked|].Listed? && !Permits(log[|checked|], mountPoint, remote)
    ensures was < log && UnmountRun(was, log, mountPoint, remote) && !Unmounted(was, log, mountPoint, remote)
    ensures |checked| == |was| + 3 && !Shows(log[|was| + 3], mountPoint, remote)
  {
    hide TwoFrames, Permits;
    assert forall i | 0 <= i < |checked| :: log[i] == checked[i];
  }

  lemma Unmounts(was: seq<Event>, checked: seq<Event>, e: Event, tried: seq<Event>, log: seq<Event>, mountPoint: string,
                 remote: string)
    requires CheckedUpTo(was, checked, 3) && Approved(checked, |was|, 3) && e.Listed?
    requires Permits(e, mountPoint, remote)
    requires tried == checked + [e] + if Shows(e, mountPoint, remote) then [Unmount] else []
    requires Sampled(tried, log, mountPoint, remote)
    ensures was < log && UnmountRun(was, log, mountPoint, remote)
    ensures Unmounted(was, log, mountPoint, remote) <==> TwoFrames(log, mountPoint, remote, false)
    ensures Approved(log, |was|, 3) && |log| > |was| + 3 && log[|was| + 3] == e
  {
    hide TwoFrames, Permits, Shows, Sampled;
    SampledExtends(tried, log, mountPoint, remote);
    assert |checked| == |was| + 3 && log[..|tried|] == tried;
    assert forall i | 0 <= i < |checked| :: log[i] == tried[i] == checked[i];
    assert log[|checked|] == tried[|checked|] == e;
    assert |tried| == |checked| + if Shows(e, mountPoint, remote) then 2 else 1;
    assert Approved(log, |was|, 3) && was < log && |log| > |tried|;
    if Shows(e, mountPoint, remote) { assert log[|checked| + 1] == tried[|checked| + 1] == Unmount; }
  }

  lemma StopsAtOnce(was: seq<Event>, log: seq<Event>, mountPoint: string, remote: string)
    requires log == was + [Checked(false)]
    ensures RemoveRun(was, |log|, |log|, log, mountPoint, remote, false)
    ensures !Deletable(was, |log|, |log|, log, mountPoint, remote) && !Issued(was, log, mountPoint, remote)
  {
    hide UnmountRun, Unmounted, DeleteRun, TwoFrames, Shows;
    assert log[|was|] == Checked(false);
  }

  lemma StopsUnmounting(was: seq<Event>, first: seq<Event>, log: seq<Event>, mountPoint: string, remote: string)
    requires first == was + [Checked(true)] && UnmountRun(first, log, mountPoint, remote)
    requires !Unmounted(first, log, mountPoint, remote)
    ensures RemoveRun(was, |log|, |log|, log, mountPoint, remote, false)
    ensures !Deletable(was, |log|, |log|, log, mountPoint, remote)
    ensures Approved(log, |first|, 3) ==> |log| > |first| + 3
    ensures Issued(was, log, mountPoint, remote) <==>
              Approved(log, |first|, 3) && |log| > |first| + 3 && Shows(log[|first| + 3], mountPoint, remote)
  {
    hide UnmountRun, Unmounted, DeleteRun, TwoFrames, Shows;
    RunExtends(first, log, mountPoint, remote);
    assert log[..|first|] == first && log[..|log|] == log && log[|was|] == first[|was|];
  }

  lemma RunExtends(was: seq<Event>, log: seq<Event>, mountPoint: string, remote: string)
    requires UnmountRun(was, log, mountPoint, remote)
    ensures was < log
    ensures Approved(log, |was|, 3) ==> |log| > |was| + 3
  {
    hide Permits, Shows, Sampled;
  }

  // What the checks before an unmount and its list say stays said.
  lemma StillIssued(was: seq<Event>, first: seq<Event>, settled: seq<Event>, log: seq<Event>, mountPoint: string,
                    remote: string)
    requires first == was + [Checked(true)] && first < settled && settled <= log
    requires Unmounted(first, settled, mountPoint, remote)
    ensures Approved(settled, |first|, 3) && |settled| > |first| + 3
    ensures Issued(was, log, mountPoint, remote) <==> Shows(settled[|first| + 3], mountPoint, remote)
    ensures Approved(log, |was|, 1) && log[..|was| + 1] == first && log[..|settled|] == settled
  {
    hide Permits, Shows, TwoFrames;
    assert forall i | 0 <= i < |settled| :: log[i] == settled[i];
    assert settled[|was|] == first[|was|];
  }

  lemma StopsRereading(was: seq<Event>, first: seq<Event>, settled: seq<Event>, log: seq<Event>, mountPoint: string,
                       remote: string)
    requires first == was + [Checked(true)] && UnmountRun(first, settled, mountPoint, remote)
    requires Unmounted(first, settled, mountPoint, remote) && log == settled + [Checked(false)]
    ensures RemoveRun(was, |settled|, |log|, log, mountPoint, remote, false)
    ensures !Deletable(was, |settled|, |log|, log, mountPoint, remote)
    ensures Approved(settled, |first|, 3) && |settled| > |first| + 3
    ensures Issued(was, log, mountPoint, remote) <==> Shows(settled[|first| + 3], mountPoint, remote)
  {
    hide UnmountRun, Unmounted, DeleteRun, TwoFrames, Shows, Issued, Approved;
    RunExtends(first, settled, mountPoint, remote);
    StillIssued(was, first, settled, log, mountPoint, remote);
    assert log[|settled|] == Checked(false);
  }

  lemma Removes(was: seq<Event>, first: seq<Event>, settled: seq<Event>, again: seq<Event>, log: seq<Event>, f: nat,
                mountPoint: string, remote: string, ok: bool)
    requires first == was + [Checked(true)] && UnmountRun(first, settled, mountPoint, remote)
    requires Unmounted(first, settled, mountPoint, remote) && again == settled + [Checked(true)]
    requires DeleteRun(again, f, log, mountPoint, remote, ok) && f <= |log|
    ensures RemoveRun(was, |settled|, f, log, mountPoint, remote, ok)
    ensures Deletable(was, |settled|, f, log, mountPoint, remote) <==>
              Approved(log, |again|, 2) && TwoFrames(log[..f], mountPoint, remote, false)
    ensures ok <==> && Deletable(was, |settled|, f, log, mountPoint, remote) && f < |log|
                    && (log[f] == Delete(true) || log[|log| - 1] == Remotes(Some(false)))
    ensures Approved(settled, |first|, 3) && |settled| > |first| + 3
    ensures Issued(was, log, mountPoint, remote) <==> Shows(settled[|first| + 3], mountPoint, remote)
  {
    hide UnmountRun, Unmounted, DeleteRun, TwoFrames, Shows, Issued, Approved;
    RunExtends(first, settled, mountPoint, remote);
    DeletionExtends(again, f, log, mountPoint, remote, ok);
    assert settled <= log && log[..|again|] == again;
    StillIssued(was, first, settled, log, mountPoint, remote);
    MoreApproved(log, |settled|);
    assert log[|settled|] == again[|settled|];
  }

  lemma MoreApproved(log: seq<Event>, at: nat)
    ensures Approved(log, at, 3) <==> at < |log| && log[at] == Checked(true) && Approved(log, at + 1, 2)
  {
  }

  lemma DeletionExtends(was: seq<Event>, f: nat, log: seq<Event>, mountPoint: string, remote: string, ok: bool)
    requires DeleteRun(was, f, log, mountPoint, remote, ok) && f <= |log|
    ensures was < log && |was| < f
    ensures Approved(log, |was|, 2) ==> |was| + 2 < f
    ensures ok <==> && Approved(log, |was|, 2) && TwoFrames(log[..f], mountPoint, remote, false) && f < |log|
                    && (log[f] == Delete(true) || log[|log| - 1] == Remotes(Some(false)))
  {
    hide TwoFrames;
    if Approved(log, |was|, 2) { SampledExtends(log[..|was| + 2], log[..f], mountPoint, remote); }
  }

  lemma NoFrames(log: seq<Event>, mountPoint: string, remote: string, expected: bool)
    ensures Usual(log, |log|, mountPoint, remote) && NoneAgree(log, |log|, |log| - 1, mountPoint, remote, expected)
  {
  }

  lemma UsualFrames(log: seq<Event>, from: nat, mountPoint: string, remote: string)
    requires from < |log| && Usual(log[..|log| - 1], from, mountPoint, remote) && log[|log| - 1].Saw?
    ensures OnlyFrames(log[from..])
    ensures EndsConfused(log, mountPoint, remote) <==> Confused(log[|log| - 1].frame, mountPoint, remote)
    ensures Usual(log, from, mountPoint, remote) ==> !EndsConfused(log, mountPoint, remote)
  {
    hide Confused;
    var shorter := log[..|log| - 1];
    assert forall i | from <= i < |shorter| :: log[i] == shorter[i];
  }

  lemma OneMoreFrame(earlier: seq<Event>, log: seq<Event>, from: nat, mountPoint: string, remote: string,
                     expected: bool)
    requires from <= |earlier| && |log| == |earlier| + 1 && log[..|earlier|] == earlier && log[|earlier|].Saw?
    requires Usual(earlier, from, mountPoint, remote)
    requires NoneAgree(earlier, from, |earlier| - 1, mountPoint, remote, expected)
    ensures NoneAgree(log, from, |log| - 2, mountPoint, remote, expected) && log[..|log| - 1] == earlier
    ensures Usual(log, from, mountPoint, remote) <==> !Confused(log[|earlier|].frame, mountPoint, remote)
    ensures |earlier| > from ==>
              (AgreeAt(log, |log| - 2, mountPoint, remote, expected) <==>
                 LastAgrees(earlier, mountPoint, remote, expected) && LastAgrees(log, mountPoint, remote, expected))
    ensures NoneAgree(log, from, |log| - 1, mountPoint, remote, expected) <==>
              !(|earlier| > from && AgreeAt(log, |log| - 2, mountPoint, remote, expected))
    ensures LastAgrees(log, mountPoint, remote, expected) <==>
              Agrees(log[|earlier|].frame, mountPoint, remote, expected)
    ensures Confused(log[|earlier|].frame, mountPoint, remote) ==> !LastAgrees(log, mountPoint, remote, expected)
  {
    hide Confused, Agrees;
    if Confused(log[|earlier|].frame, mountPoint, remote) {
      ConfusedDisagrees(log[|earlier|].frame, mountPoint, remote, expected);
    }
    assert forall i | 0 <= i < |earlier| :: log[i] == earlier[i];
    forall i | from <= i < |earlier| - 1 ensures !AgreeAt(log, i, mountPoint, remote, expected) {
      assert !AgreeAt(earlier, i, mountPoint, remote, expected);
    }
  }

  lemma Unsettled(log: seq<Event>, from: nat, mountPoint: string, remote: string, expected: bool)
    requires from < |log| && Usual(log, from, mountPoint, remote)
    requires NoneAgree(log, from, |log| - 1, mountPoint, remote, expected)
    ensures Usual(log[..|log| - 1], from, mountPoint, remote) && log[|log| - 1].Saw? && OnlyFrames(log[from..])
    ensures !EndsConfused(log, mountPoint, remote)
    ensures NoneAgree(log, from, |log| - 2, mountPoint, remote, expected)
    ensures |log| >= from + 2 ==> !AgreeAt(log, |log| - 2, mountPoint, remote, expected)
  {
    hide Confused, AgreeAt;
  }

  lemma PromptFacts(a: Answer, interval: nat, timeout: nat)
    ensures Prompt(a, interval, timeout) <==>
              !a.cancelled && !a.interrupted && a.elapsed + interval + a.longer < timeout
  {
  }

  lemma ClockStarts(answers: nat -> Answer, from: nat, start: nat, deadline: nat, interval: nat)
    ensures Clock(answers, from, 0, start, deadline, interval) == start
  {
  }

  lemma ClockTicks(answers: nat -> Answer, from: nat, n: nat, start: nat, deadline: nat, interval: nat)
    requires n > 0
    ensures var a := answers(from + n - 1);
            var t := Clock(answers, from, n - 1, start, deadline, interval) + a.elapsed;
            Clock(answers, from, n, start, deadline, interval) ==
              if t >= deadline then t else t + Least(interval, deadline - t) + a.longer
  {
  }

  lemma NotTwoFrames(log: seq<Event>, mountPoint: string, remote: string)
    ensures log != [] && !log[|log| - 1].Saw? ==> !TwoFrames(log, mountPoint, remote, false)
  {
  }

  lemma SampledExtends(was: seq<Event>, log: seq<Event>, mountPoint: string, remote: string)
    requires Sampled(was, log, mountPoint, remote)
    ensures was < log
  {
  }

  lemma CountOneMore(log: seq<Event>, e: Event, kind: Kind)
    ensures Count(log + [e], kind) == Count(log, kind) + if Is(e, kind) then 1 else 0
  {
    assert (log + [e])[..|log|] == log;
  }

  lemma {:induction false} FramesCountNothing(before: seq<Event>, log: seq<Event>)
    requires before <= log && OnlyFrames(log[|before|..])
    ensures forall kind :: Count(log, kind) == Count(before, kind)
    decreases |log|
  {
    if |log| == |before| {
      assert log == before;
    } else {
      var n := |log| - 1;
      assert log[n] == log[|before|..][n - |before|];
      assert log[..n][|before|..] == log[|before|..][..n - |before|];
      FramesCountNothing(before, log[..n]);
    }
  }

  lemma GatedOneMore(log: seq<Event>, e: Event, mountPoint: string, remote: string)
    requires Gated(log, mountPoint, remote)
    requires e.Delete? ==> TwoFrames(log, mountPoint, remote, false)
    requires e.Unmount? ==> log != [] && Shows(log[|log| - 1], mountPoint, remote)
    ensures Gated(log + [e], mountPoint, remote)
  {
    hide TwoFrames, Shows;
    var all := log + [e];
    forall i: nat | i < |all| ensures GatedAt(all, i, mountPoint, remote) {
      assert all[..i] == log[..i] && (i > 0 ==> all[i - 1] == log[i - 1]);
      if i < |log| {
        assert GatedAt(log, i, mountPoint, remote) && all[i] == log[i];
      } else {
        assert log[..i] == log && all[i] == e;
      }
    }
  }
}
