/**
 The registry of resumable uploads (service/file_upload.go): which generation owns a key,
 when a key may be reused, and which completed records are forgotten.

 Each method is one critical section of sessionsMu or of a session's own lock.  `busy`,
 `again` and `later` are the keys whose session lock some request holds when the section
 tries it for the first, second and third time.
 */
module UploadRegistry {

  type Key = string
  type Time = nat

  const MAX_ACTIVE := 16
  const MAX_TOMBSTONES := 128

  // A session generation.  `init` means that requests may still write to its staging
  // directory; `clean` that this directory is known to be gone.
  datatype Info = Info(key: Key, init: bool, completed: bool, clean: bool, completedAt: Time, lastActivity: Time)

  // ---------- removing a staging tree ----------

  // What RemoveHeldTree meets: nothing; a failure up to its rename; a failed look at the
  // renamed tree, and whether the rename back works; a failure that leaves the renamed tree;
  // or a failed sync after the tree is gone.
  datatype Fate = AllWell | Refused | Misread(restored: bool) | Stuck | Unsynced

  datatype Attempt = Attempt(gen: nat, present: bool, fate: Fate)

  // A staging name that is absent counts as removed.
  predicate Succeeds(present: bool, fate: Fate) {
    fate == AllWell || (!present && fate != Refused)
  }

  // The attempt failed after its rename and before the tree was gone.
  predicate SetsAside(a: Attempt) {
    a.present && (a.fate == Stuck || a.fate == Misread(false))
  }

  ghost predicate WasSetAside(attempts: seq<Attempt>, g: nat) {
    exists i | 0 <= i < |attempts| :: attempts[i].gen == g && SetsAside(attempts[i])
  }

  // The trees set aside are those whose removal failed in between, and are nowhere else.
  ghost predicate AsideIn(infos: seq<Info>, holder: map<Key, nat>, aside: set<nat>, attempts: seq<Attempt>) {
    && (forall g :: g in aside <==> WasSetAside(attempts, g))
    && (forall g | g in aside :: g < |infos| && !infos[g].init)
    && (forall k | k in holder :: holder[k] !in aside)
  }

  lemma OneMoreAttempt(attempts: seq<Attempt>, a: Attempt, g: nat)
    ensures WasSetAside(attempts + [a], g) <==> WasSetAside(attempts, g) || (a.gen == g && SetsAside(a))
  {
    var more := attempts + [a];
    assert more[|attempts|] == a && forall i | 0 <= i < |attempts| :: more[i] == attempts[i];
  }

  // ---------- sorting by completion time ----------

  datatype Stamped = Stamped(key: Key, at: Time)

  predicate Sorted(s: seq<Stamped>) {
    forall i, k | 0 <= i < k < |s| :: s[i].at <= s[k].at
  }

  predicate DistinctKeys(s: seq<Stamped>) {
    forall i, k | 0 <= i < k < |s| :: s[i].key != s[k].key
  }

  ghost function KeysOf(s: seq<Stamped>): set<Key> {
    set i | 0 <= i < |s| :: s[i].key
  }

  // r holds the elements of s and x, and still no key twice.
  ghost predicate Added(s: seq<Stamped>, x: Stamped, r: seq<Stamped>) {
    DistinctKeys(r) && forall y :: y in r <==> y in s || y == x
  }

  method Insert(s: seq<Stamped>, x: Stamped) returns (r: seq<Stamped>)
    requires Sorted(s) && DistinctKeys(s) && x.key !in KeysOf(s)
    ensures Sorted(r) && Added(s, x, r)
  {
    hide Sorted, DistinctKeys, Added;
    var i := |s|;
    while i > 0 && s[i - 1].at > x.at
      invariant 0 <= i <= |s| && forall k | i <= k < |s| :: s[k].at > x.at
    {
      i := i - 1;
    }
    r := s[..i] + [x] + s[i..];
    InsertedSorted(s, x, i);
    InsertedOnce(s, x, i);
  }

  lemma InsertedSorted(s: seq<Stamped>, x: Stamped, i: nat)
    requires Sorted(s) && i <= |s| && (i > 0 ==> s[i - 1].at <= x.at) && forall k | i <= k < |s| :: s[k].at > x.at
    ensures Sorted(s[..i] + [x] + s[i..])
  {
    var r := s[..i] + [x] + s[i..];
    forall p, q | 0 <= p < q < |r| ensures r[p].at <= r[q].at {
      assert r[p] == if p < i then s[p] else if p == i then x else s[p - 1];
      assert r[q] == if q < i then s[q] else if q == i then x else s[q - 1];
      if p < i && q >= i { assert s[p].at <= s[i - 1].at; }
    }
  }

  lemma InsertedOnce(s: seq<Stamped>, x: Stamped, i: nat)
    requires i <= |s| && DistinctKeys(s) && x.key !in KeysOf(s)
    ensures Added(s, x, s[..i] + [x] + s[i..])
  {
    var r := s[..i] + [x] + s[i..];
    forall y ensures y in r <==> y in s || y == x {
      if y in s { var k :| 0 <= k < |s| && s[k] == y; assert r[if k < i then k else k + 1] == y; }
      assert r[i] == x;
    }
    forall p, q | 0 <= p < q < |r| ensures r[p].key != r[q].key {
      assert r[p] == if p < i then s[p] else if p == i then x else s[p - 1];
      assert r[q] == if q < i then s[q] else if q == i then x else s[q - 1];
      assert p != i ==> r[p].key in KeysOf(s);
      assert q != i ==> r[q].key in KeysOf(s);
    }
  }

  // sort.Slice: the same records, by time
  method Sort(s: seq<Stamped>) returns (r: seq<Stamped>)
    requires DistinctKeys(s)
    ensures Sorted(r) && DistinctKeys(r) && forall y :: y in r <==> y in s
  {
    hide Sorted;
    r := [];
    SortedNone();
    for i := 0 to |s|
      invariant Sorted(r) && DistinctKeys(r) && forall y :: y in r <==> y in s[..i]
    {
      assert s[..i + 1] == s[..i] + [s[i]];
      NotYet(s, i, r);
      r := Insert(r, s[i]);
    }
    assert s[..|s|] == s;
  }

  lemma SortedNone()
    ensures Sorted([])
  {
  }

  lemma NotYet(s: seq<Stamped>, i: nat, r: seq<Stamped>)
    requires DistinctKeys(s) && i < |s| && forall y :: y in r <==> y in s[..i]
    ensures s[i].key !in KeysOf(r)
  {
    forall k | 0 <= k < |r| ensures r[k].key != s[i].key { assert r[k] in s[..i]; }
  }

  // ---------- what holds in every state ----------

  predicate InfosOkIn(infos: seq<Info>, sessions: map<Key, nat>) {
    && (forall k | k in sessions :: sessions[k] < |infos| && infos[sessions[k]].key == k)
    && (forall g | 0 <= g < |infos| :: infos[g].completed ==> !infos[g].init)
  }

  // Whoever may still write is registered; the files in a staging directory belong to the
  // generation that has the key; and where the directory is known to be gone there are none.
  ghost predicate OwnedIn(infos: seq<Info>, sessions: map<Key, nat>, holder: map<Key, nat>)
    requires InfosOkIn(infos, sessions)
  {
    && (forall g | 0 <= g < |infos| && infos[g].init :: infos[g].key in sessions && sessions[infos[g].key] == g)
    && (forall k | k in holder :: k in sessions && sessions[k] == holder[k])
    && (forall k | k in sessions && infos[sessions[k]].clean :: k !in holder)
  }

  ghost function ActiveIn(infos: seq<Info>, sessions: map<Key, nat>): set<Key>
    requires InfosOkIn(infos, sessions)
  {
    set k | k in sessions && !infos[sessions[k]].completed
  }

  lemma RegisterKeeps(infos: seq<Info>, sessions: map<Key, nat>, holder: map<Key, nat>, i: Info)
    requires InfosOkIn(infos, sessions) && OwnedIn(infos, sessions, holder) && i.key !in sessions && !i.completed
    ensures i.key !in holder
    ensures InfosOkIn(infos + [i], sessions[i.key := |infos|])
    ensures OwnedIn(infos + [i], sessions[i.key := |infos|], holder)
  {
    var more, after := infos + [i], sessions[i.key := |infos|];
    assert more[|infos|] == i && forall g | 0 <= g < |infos| :: more[g] == infos[g];
    forall k | k in after ensures after[k] < |more| && more[after[k]].key == k {
      if k != i.key { assert after[k] == sessions[k]; }
    }
  }

  lemma RegisterKeepsAside(infos: seq<Info>, holder: map<Key, nat>, aside: set<nat>, attempts: seq<Attempt>, i: Info)
    requires AsideIn(infos, holder, aside, attempts)
    ensures AsideIn(infos + [i], holder, aside, attempts)
  {
    hide WasSetAside;
    assert forall g | 0 <= g < |infos| :: (infos + [i])[g] == infos[g];
  }

  lemma UpdateKeepsAside(infos: seq<Info>, holder: map<Key, nat>, aside: set<nat>, attempts: seq<Attempt>, g: nat,
                         i: Info)
    requires AsideIn(infos, holder, aside, attempts) && g < |infos| && (i.init ==> infos[g].init)
    ensures AsideIn(infos[g := i], holder, aside, attempts)
    ensures infos[g].init ==> AsideIn(infos[g := i], holder[i.key := g], aside, attempts)
  {
    hide WasSetAside;
  }

  lemma RegisterCounts(infos: seq<Info>, sessions: map<Key, nat>, i: Info)
    requires InfosOkIn(infos, sessions) && i.key !in sessions && !i.completed
    requires InfosOkIn(infos + [i], sessions[i.key := |infos|])
    ensures |ActiveIn(infos + [i], sessions[i.key := |infos|])| == |ActiveIn(infos, sessions)| + 1
    ensures |sessions[i.key := |infos|]| == |sessions| + 1
  {
    hide InfosOkIn, ActiveIn;
    var after := sessions[i.key := |infos|];
    forall k ensures k in ActiveIn(infos + [i], after) <==> k in ActiveIn(infos, sessions) + {i.key} {
      RegisterActive(infos, sessions, i, k);
    }
    RegisterActive(infos, sessions, i, i.key);
    assert ActiveIn(infos + [i], after) == ActiveIn(infos, sessions) + {i.key};
    assert after.Keys == sessions.Keys + {i.key};
  }

  lemma RegisterActive(infos: seq<Info>, sessions: map<Key, nat>, i: Info, k: Key)
    requires InfosOkIn(infos, sessions) && i.key !in sessions && !i.completed
    requires InfosOkIn(infos + [i], sessions[i.key := |infos|])
    ensures k in ActiveIn(infos + [i], sessions[i.key := |infos|]) <==> k in ActiveIn(infos, sessions) || k == i.key
    ensures i.key !in ActiveIn(infos, sessions)
  {
    if k in sessions { assert (infos + [i])[sessions[k]] == infos[sessions[k]]; }
  }

  // One generation's record changes; it does not reopen, and is clean only if its files are gone.
  lemma UpdateKeeps(infos: seq<Info>, sessions: map<Key, nat>, holder: map<Key, nat>, g: nat, i: Info,
                    held: map<Key, nat>)
    requires InfosOkIn(infos, sessions) && OwnedIn(infos, sessions, holder) && g < |infos|
    requires i.key == infos[g].key && (i.init ==> infos[g].init) && (i.completed ==> !i.init)
    requires (infos[g].completed ==> i.completed)
    requires forall k | k in held ::
               k in sessions && sessions[k] == held[k] && if k == i.key && sessions[k] == g then !i.clean
                 else k in holder
    ensures InfosOkIn(infos[g := i], sessions) && OwnedIn(infos[g := i], sessions, held)
    ensures |ActiveIn(infos[g := i], sessions)| <= |ActiveIn(infos, sessions)|
  {
    assert ActiveIn(infos[g := i], sessions) <= ActiveIn(infos, sessions);
    Registry.SubsetSize(ActiveIn(infos[g := i], sessions), ActiveIn(infos, sessions));
  }

  // An attempt at removing the tree of a registered, closed generation.
  lemma RemovalKeeps(infos: seq<Info>, sessions: map<Key, nat>, holder: map<Key, nat>, aside: set<nat>,
                     attempts: seq<Attempt>,
                     key: Key, gen: nat, fate: Fate)
    requires InfosOkIn(infos, sessions) && OwnedIn(infos, sessions, holder) && AsideIn(infos, holder, aside, attempts)
    requires gen < |infos| && !infos[gen].init && key in sessions && sessions[key] == gen
    ensures OwnedIn(infos, sessions, holder - {key}) && (key in holder ==> holder[key] == gen && gen !in aside)
    ensures var a := Attempt(gen, key in holder, fate);
            if SetsAside(a) then AsideIn(infos, holder - {key}, aside + {gen}, attempts + [a])
            else AsideIn(infos, holder, aside, attempts + [a]) && AsideIn(infos, holder - {key}, aside, attempts + [a])
  {
    hide WasSetAside;
    forall g ensures WasSetAside(attempts + [Attempt(gen, key in holder, fate)], g) <==>
                       WasSetAside(attempts, g) || (gen == g && SetsAside(Attempt(gen, key in holder, fate)))
    {
      OneMoreAttempt(attempts, Attempt(gen, key in holder, fate), g);
    }
    forall k | k in holder - {key}
      ensures (holder -
    {
      key})[k] != gen { assert sessions[k] == holder[k] && infos[sessions[k]].key == k;
    }
  }

  lemma ForgetKeeps(infos: seq<Info>, sessions: map<Key, nat>, holder: map<Key, nat>, k: Key)
    requires InfosOkIn(infos, sessions) && OwnedIn(infos, sessions, holder) && k in sessions && k !in holder
    requires !infos[sessions[k]].init
    ensures InfosOkIn(infos, sessions - {k}) && OwnedIn(infos, sessions - {k}, holder)
    ensures |ActiveIn(infos, sessions - {k})| <= |ActiveIn(infos, sessions)| && |sessions - {k}| <= |sessions|
  {
    Registry.SubsetSize(ActiveIn(infos, sessions - {k}), ActiveIn(infos, sessions));
    Registry.SubsetSize((sessions - {k}).Keys, sessions.Keys);
  }

  // Since `was` only evictable records went, all of them older than the rest of the list.
  ghost predicate EvictedIn(infos: seq<Info>, was: map<Key, nat>, now: map<Key, nat>, busy: set<Key>,
                            rest: seq<Stamped>) {
    && (forall k | k in now :: k in was && now[k] == was[k])
    && (forall k | k in was && k !in now :: GoneFor(infos, was, busy, rest, k))
  }

  ghost predicate GoneFor(infos: seq<Info>, was: map<Key, nat>, busy: set<Key>, rest: seq<Stamped>, k: Key) {
    && k in was && was[k] < |infos| && k !in busy && infos[was[k]].completed && infos[was[k]].clean
    && forall x | x in rest :: infos[was[k]].completedAt <= x.at
  }

  lemma NoneEvicted(infos: seq<Info>, was: map<Key, nat>, busy: set<Key>, rest: seq<Stamped>)
    ensures EvictedIn(infos, was, was, busy, rest)
  {
  }

  lemma EvictedStep(infos: seq<Info>, was: map<Key, nat>, now: map<Key, nat>, busy: set<Key>, rest: seq<Stamped>)
    requires EvictedIn(infos, was, now, busy, rest) && rest != [] && Sorted(rest)
    ensures Sorted(rest[1..]) && EvictedIn(infos, was, now, busy, rest[1..])
    ensures var k := rest[0].key;
            k in now && now[k] < |infos| && k !in busy && infos[now[k]].completed && infos[now[k]].clean &&
              infos[now[k]].completedAt == rest[0].at ==>
              EvictedIn(infos, was, now - {k}, busy, rest[1..])
  {
    assert forall i | 0 <= i < |rest| - 1 :: rest[1..][i] == rest[i + 1];
    assert forall x | x in rest[1..] :: x in rest && rest[0].at <= x.at;
  }

  lemma EvictedFacts(infos: seq<Info>, was: map<Key, nat>, now: map<Key, nat>, busy: set<Key>, rest: seq<Stamped>)
    requires EvictedIn(infos, was, now, busy, rest)
    ensures Registry.SubMap(now, was)
    ensures forall k | k in was && k !in now ::
              && was[k] < |infos| && k !in busy && infos[was[k]].completed && infos[was[k]].clean
              && forall x | x in rest :: infos[was[k]].completedAt <= x.at
  {
  }

  class Registry {
    var infos: seq<Info>
    var sessions: map<Key, nat>
    // the generation whose tree is under a key's staging name, and the generations whose
    // tree is under a name of its own
    var holder: map<Key, nat>
    var aside: set<nat>
    ghost var attempts: seq<Attempt>

    predicate InfosOk()
      reads this
    {
      InfosOkIn(infos, sessions)
    }

    ghost predicate Owned()
      reads this
      requires InfosOk()
    {
      OwnedIn(infos, sessions, holder)
    }

    ghost function Active(): set<Key>
      reads this
      requires InfosOk()
    {
      ActiveIn(infos, sessions)
    }

    ghost predicate Valid()
      reads this
    {
      InfosOk() && Owned() && |Active()| <= 16 && |sessions| <= 144 && Aside()
    }

    ghost predicate Aside()
      reads this
    {
      AsideIn(infos, holder, aside, attempts)
    }

    constructor ()
      ensures Valid() && sessions == map[] && infos == []
    {
      infos, sessions, holder, aside, attempts := [], map[], map[], {}, [];
    }

    static lemma SubsetSize(a: set<Key>, b: set<Key>)
      requires a <= b
      ensures |a| <= |b|
    {
      assert b == a + (b - a);
    }

    predicate Expired(k: Key, now: Time)
      reads this
      requires InfosOk() && k in sessions
    {
      var i := infos[sessions[k]];
      i.completedAt != 0 && now - i.completedAt > 600
    }

    predicate Evictable(k: Key, busy: set<Key>)
      reads this
      requires InfosOk()
    {
      k in sessions && k !in busy && infos[sessions[k]].completed && infos[sessions[k]].clean
    }

    // No record is left that age or number should have evicted.
    ghost predicate Pruned(now: Time, busy: set<Key>, again: set<Key>)
      reads this
      requires InfosOk()
    {
      && (forall k | Evictable(k, busy) :: !Expired(k, now))
      && (|Counted(busy)| <= 128 || forall k :: !Evictable(k, busy + again))
    }

    // The session accepts no more chunks, or nobody has used it for too long.
    predicate Terminal(k: Key, now: Time)
      reads this
      requires InfosOk() && k in sessions
    {
      !infos[sessions[k]].init || Idle(infos[sessions[k]], now)
    }

    static predicate Idle(i: Info, now: Time) {
      i.lastActivity != 0 && now - i.lastActivity > 6 * 3600
    }

    // The evictable records outside `todo`, each with its completion time.
    ghost predicate Collected(clean: seq<Stamped>, busy: set<Key>, todo: set<Key>)
      reads this
      requires InfosOk()
    {
      && DistinctKeys(clean) && (forall k :: k in KeysOf(clean) <==> Evictable(k, busy) && k !in todo)
      && forall i | 0 <= i < |clean| ::
          clean[i].key in sessions && clean[i].at == infos[sessions[clean[i].key]].completedAt
    }

    lemma CollectOne(clean: seq<Stamped>, busy: set<Key>, todo: set<Key>, k: Key)
      requires InfosOk() && Collected(clean, busy, todo) && k in todo && k in sessions
      ensures Collected(if Evictable(k, busy) then clean + [Stamped(k, infos[sessions[k]].completedAt)]
                else clean, busy, todo - {k})
    {
      if Evictable(k, busy) {
        var x := Stamped(k, infos[sessions[k]].completedAt);
        AppendKeys(clean, x);
        forall i | 0 <= i < |clean| ensures clean[i].key != k { assert clean[i].key in KeysOf(clean); }
      }
    }

    // The first loop of pruneCompletedUploadTombstonesLocked: drop what expired, collect the
    // rest of the clean records and count the completed ones.
    method Survey(now: Time, busy: set<Key>) returns (clean: seq<Stamped>, count: nat)
      requires Valid()
      modifies this`sessions
      ensures Valid() && SubMap(sessions, old(sessions))
      ensures forall k | k in old(sessions) :: k !in sessions <==> old(Evictable(k, busy)) && old(Expired(k, now))
      ensures Collected(clean, busy, {}) && count == |Counted(busy)|
    {
      hide Owned, Active, Aside, Collected, Counted;
      clean, count := [], 0;
      var todo := sessions.Keys;
      NothingCollected(busy);
      ghost var due := set k | k in sessions && Evictable(k, busy) && Expired(k, now);
      while todo != {}
        invariant Valid() && todo <= sessions.Keys && SubMap(sessions, old(sessions))
        invariant forall k | k in old(sessions) && k !in todo :: k !in sessions <==> k in due
        invariant Collected(clean, busy, todo) && count == |Counted(busy) - todo|
      {
        var k :| k in todo;
        assert k in due <==> Evictable(k, busy) && Expired(k, now);
        clean, count := SurveyOne(k, now, busy, todo, clean, count);
        todo := todo - {k};
      }
      assert Counted(busy) - {} == Counted(busy);
    }

    method SurveyOne(k: Key, now: Time, busy: set<Key>, ghost todo: set<Key>, given: seq<Stamped>, sofar: nat)
      returns (clean: seq<Stamped>, count: nat)
      requires Valid() && k in todo && todo <= sessions.Keys && Collected(given, busy, todo)
      requires sofar == |Counted(busy) - todo|
      modifies this`sessions
      ensures Valid() && Collected(clean, busy, todo - {k}) && count == |Counted(busy) - (todo - {k})|
      ensures sessions == if old(Evictable(k, busy)) && old(Expired(k, now)) then old(sessions) - {k} else old(sessions)
    {
      hide Owned, Active, Aside, Collected;
      clean, count := given, sofar;
      CollectOne(given, busy, todo, k);
      var i := infos[sessions[k]];
      if k in busy || !i.completed {
        assert Counted(busy) - (todo - {k}) == Counted(busy) - todo;
      } else if i.clean && Expired(k, now) {
        DropExpired(k, busy, todo, given);
        assert Counted(busy) - (todo - {k}) == old(Counted(busy)) - todo;
      } else {
        assert Counted(busy) - (todo - {k}) == (Counted(busy) - todo) + {k};
        count := sofar + 1;
        if i.clean { clean := given + [Stamped(k, i.completedAt)]; }
      }
    }

    method DropExpired(k: Key, busy: set<Key>, ghost todo: set<Key>, ghost clean: seq<Stamped>)
      requires Valid() && Evictable(k, busy) && k in todo && Collected(clean, busy, todo)
      modifies this`sessions
      ensures Valid() && sessions == old(sessions) - {k} && Collected(clean, busy, todo - {k})
      ensures Counted(busy) == old(Counted(busy)) - {k}
    {
      Drop(k);
      assert k !in KeysOf(clean);
      forall i | 0 <= i < |clean| ensures clean[i].key != k { assert clean[i].key in KeysOf(clean); }
    }

    lemma NothingCollected(busy: set<Key>)
      requires InfosOk()
      ensures Collected([], busy, sessions.Keys) && Counted(busy) - sessions.Keys == {}
    {
    }

    ghost function Counted(busy: set<Key>): set<Key>
      reads this
      requires InfosOk()
    {
      set k | k in sessions && k !in busy && infos[sessions[k]].completed
    }

    static ghost predicate SubMap(a: map<Key, nat>, b: map<Key, nat>) {
      forall k | k in a :: k in b && a[k] == b[k]
    }

    static lemma AppendKeys(s: seq<Stamped>, x: Stamped)
      ensures KeysOf(s + [x]) == KeysOf(s) + {x.key}
    {
      assert forall i | 0 <= i < |s| :: (s + [x])[i] == s[i];
      assert (s + [x])[|s|] == x;
    }

    // Forget a completed, clean record.
    method Drop(k: Key)
      requires Valid() && k in sessions && infos[sessions[k]].completed && infos[sessions[k]].clean
      modifies this`sessions
      ensures Valid() && sessions == old(sessions) - {k}
    {
      hide OwnedIn, ActiveIn, InfosOkIn, AsideIn;
      CleanIsFree(k);
      ForgetKeeps(infos, sessions, holder, k);
      sessions := sessions - {k};
    }

    lemma CleanIsFree(k: Key)
      requires Valid() && k in sessions && infos[sessions[k]].completed && infos[sessions[k]].clean
      ensures k !in holder && !infos[sessions[k]].init
    {
    }

    /** pruneCompletedUploadTombstonesLocked: only completed and clean records go, for age or,
        while too many remain, oldest first; a record in use at the second look is passed over. */
    method Prune(now: Time, busy: set<Key>, again: set<Key>)
      requires Valid()
      modifies this`sessions
      ensures Valid() && SubMap(sessions, old(sessions))
      ensures forall k | k in old(sessions) && k !in sessions ::
                old(Evictable(k, busy)) && (k in again ==> old(Expired(k, now)))
      ensures forall k, m | k in old(sessions) && k !in sessions && !old(Expired(k, now)) &&
                Evictable(m, busy + again) ::
                old(infos[sessions[k]].completedAt) <= infos[sessions[m]].completedAt
      ensures Pruned(now, busy, again)
      ensures forall k | k in old(sessions) && k !in sessions && !old(Expired(k, now)) ::
                |Counted(busy)| >= 128
    {
      hide Owned, Active, Aside, Sorted, Counted, Collected, DistinctKeys;
      var clean, count := Survey(now, busy);
      ghost var surveyed := sessions;
      CollectedFacts(clean, busy, {});
      if count <= MAX_TOMBSTONES { return; }
      var order := Sort(clean);
      SameRecords(clean, order, busy);
      EvictOldest(order, busy, again, count);
    }

    lemma CollectedFacts(clean: seq<Stamped>, busy: set<Key>, todo: set<Key>)
      requires InfosOk() && Collected(clean, busy, todo)
      ensures DistinctKeys(clean)
      ensures forall k | Evictable(k, busy) && k !in todo ::
                exists i | 0 <= i < |clean| :: clean[i] == Stamped(k, infos[sessions[k]].completedAt)
    {
      forall k | Evictable(k, busy) && k !in todo
        ensures exists i | 0 <= i < |clean| :: clean[i] == Stamped(k, infos[sessions[k]].completedAt)
      {
        assert k in KeysOf(clean);
        var i :| 0 <= i < |clean| && clean[i].key == k;
        assert clean[i] == Stamped(k, infos[sessions[k]].completedAt);
      }
    }

    lemma SameRecords(a: seq<Stamped>, b: seq<Stamped>, busy: set<Key>)
      requires InfosOk() && Collected(a, busy, {}) && DistinctKeys(b) && forall y :: y in b <==> y in a
      ensures Collected(b, busy, {})
    {
      forall k ensures k in KeysOf(b) <==> k in KeysOf(a) {
        if k in KeysOf(b) { var i :| 0 <= i < |b| && b[i].key == k; assert b[i] in a; }
        if k in KeysOf(a) { var i :| 0 <= i < |a| && a[i].key == k; assert a[i] in b; }
      }
      forall i | 0 <= i < |b| ensures b[i].key in sessions && b[i].at == infos[sessions[b[i].key]].completedAt {
        assert b[i] in a;
      }
    }

    // The second loop: evict from the front while too many completed records remain.
    method EvictOldest(order: seq<Stamped>, busy: set<Key>, again: set<Key>, given: nat)
      requires Valid() && Sorted(order) && Collected(order, busy, {}) && given == |Counted(busy)|
      modifies this`sessions
      ensures Valid() && SubMap(sessions, old(sessions))
      ensures forall k | k in old(sessions) && k !in sessions :: old(Evictable(k, busy)) && k !in again
      ensures forall k, m | k in old(sessions) && k !in sessions && Evictable(m, busy + again) ::
                old(infos[sessions[k]].completedAt) <= infos[sessions[m]].completedAt
      ensures |Counted(busy)| <= MAX_TOMBSTONES || forall k :: !Evictable(k, busy + again)
      ensures |Counted(busy)| < MAX_TOMBSTONES ==> sessions == old(sessions)
    {
      hide Owned, Active, Aside, Counted, Collected, Sorted, EvictedIn;
      ghost var was := sessions;
      var j, count := 0, given;
      ghost var skipped: set<Key> := {};
      assert order[0..] == order;
      NoneEvicted(infos, was, busy + again, order);
      while j < |order| && count > MAX_TOMBSTONES
        invariant j <= |order| && Valid() && count == |Counted(busy)| && (count < MAX_TOMBSTONES ==> sessions == was)
        invariant skipped <= again && Collected(order[j..], busy, skipped)
        invariant Sorted(order[j..]) && EvictedIn(infos, was, sessions, busy + again, order[j..])
      {
        assert order[j..][0] == order[j] && order[j..][1..] == order[j + 1..];
        EvictedStep(infos, was, sessions, busy + again, order[j..]);
        if order[j].key in again {
          SkipFirst(order[j..], busy, skipped);
          skipped := skipped + {order[j].key};
        } else {
          EvictFirst(order[j..], busy, skipped);
          count := count - 1;
        }
        j := j + 1;
      }
      CollectedFacts(order[j..], busy, skipped);
      EvictedFacts(infos, was, sessions, busy + again, order[j..]);
    }

    lemma SkipFirst(order: seq<Stamped>, busy: set<Key>, skipped: set<Key>)
      requires InfosOk() && order != [] && Collected(order, busy, skipped)
      ensures Collected(order[1..], busy, skipped + {order[0].key})
    {
      hide KeysOf, DistinctKeys;
      FirstKey(order);
      AllButFirst(order);
    }

    method EvictFirst(order: seq<Stamped>, busy: set<Key>, ghost skipped: set<Key>)
      requires Valid() && order != [] && Collected(order, busy, skipped)
      modifies this`sessions
      ensures Valid() && sessions == old(sessions) - {order[0].key}
      ensures old(Evictable(order[0].key, busy)) && old(infos[sessions[order[0].key]].completedAt) == order[0].at
      ensures Collected(order[1..], busy, skipped) && |Counted(busy)| == |old(Counted(busy))| - 1
    {
      hide Owned, Active, Aside, KeysOf, DistinctKeys, Counted;
      var k := order[0].key;
      FirstKey(order);
      DropCounted(k, busy);
      AllButFirst(order);
    }

    method DropCounted(k: Key, busy: set<Key>)
      requires Valid() && Evictable(k, busy)
      modifies this`sessions
      ensures Valid() && sessions == old(sessions) - {k} && |Counted(busy)| == |old(Counted(busy))| - 1
    {
      hide Owned, Active;
      Drop(k);
      assert old(Counted(busy)) == Counted(busy) + {k};
    }

    static lemma FirstKey(order: seq<Stamped>)
      requires order != []
      ensures order[0].key in KeysOf(order)
    {
    }

    static lemma AllButFirst(order: seq<Stamped>)
      requires order != [] && DistinctKeys(order)
      ensures KeysOf(order[1..]) == KeysOf(order) - {order[0].key} && DistinctKeys(order[1..])
      ensures forall i | 0 <= i < |order| - 1 :: order[1..][i] == order[i + 1] && order[i + 1].key != order[0].key
    {
      var rest := order[1..];
      assert forall i | 0 <= i < |rest| :: rest[i] == order[i + 1];
      forall k | k in KeysOf(order) - {order[0].key} ensures k in KeysOf(rest) {
        var i :| 0 <= i < |order| && order[i].key == k;
        assert rest[i - 1].key == k;
      }
    }

    // ---------- critical sections ----------

    /** getOrCreateUploadSession: an existing generation is returned; a new one is registered
        before anything of an earlier one is removed, and only below both limits. */
    method GetOrCreate(key: Key, now: Time, busy: set<Key>, again: set<Key>, later: set<Key>, removable: bool)
      returns (gen: nat, created: bool, ok: bool)
      requires Valid()
      modifies this`infos, this`sessions
      ensures Valid() && |old(infos)| <= |infos|
      ensures ok && !created ==> key in old(sessions) && gen == old(sessions)[key] && infos == old(infos)
      ensures ok && created ==>
                && gen == |old(infos)| && infos == old(infos) + [Info(key, true, false, true, 0, now)]
                && key in sessions && sessions[key] == gen && key !in holder
      ensures !ok && !created ==> |InUse(later)| >= 16 || |sessions| >= 144
      ensures !ok && created ==>
                !removable && infos == old(infos) + [Info(key, false, false, false, 0, now)]
      ensures key in old(sessions) && !old(Evictable(key, busy)) ==> ok && !created
      ensures created && key in old(sessions) ==> old(Evictable(key, busy))
      ensures forall k | k in sessions && k != key :: k in old(sessions) && sessions[k] == old(sessions)[k]
      ensures Pruned(now, busy, again) && forall k | k in old(sessions) && k !in sessions :: old(Evictable(k, busy))
      ensures !created ==> SubMap(sessions, old(sessions))
    {
      hide Owned, Active, Aside, Counted, Pruned;
      gen, created, ok := 0, false, false;
      Prune(now, busy, again);
      if key in sessions { return sessions[key], false, true; }
      var active := CountActive(later);
      if active >= MAX_ACTIVE || |sessions| >= MAX_ACTIVE + MAX_TOMBSTONES { return; }
      gen, created := |infos|, true;
      Admit(Info(key, removable, false, removable, 0, now), now, busy, again);
      ok := removable;
    }

    // Sessions whose lock is held count as active.
    method CountActive(busy: set<Key>) returns (n: nat)
      requires Valid()
      ensures n == |InUse(busy)| >= |Active()|
    {
      hide OwnedIn, ActiveIn, InUse;
      var todo := sessions.Keys;
      n := 0;
      InUseEnds(busy);
      while todo != {}
        invariant todo <= sessions.Keys && n == |InUse(busy) - todo|
      {
        var k :| k in todo;
        InUseStep(busy, todo, k);
        if k in busy || !infos[sessions[k]].completed { n := n + 1; }
        todo := todo - {k};
      }
      ActiveInUse(busy);
    }

    lemma InUseEnds(busy: set<Key>)
      requires InfosOk()
      ensures InUse(busy) - sessions.Keys == {} && InUse(busy) - {} == InUse(busy)
    {
    }

    lemma InUseStep(busy: set<Key>, todo: set<Key>, k: Key)
      requires InfosOk() && k in todo && k in sessions
      ensures |InUse(busy) - (todo - {k})| == |InUse(busy) - todo| + if k in busy ||
                !infos[sessions[k]].completed then 1 else 0
    {
      if k in InUse(busy) {
        assert InUse(busy) - (todo - {k}) == (InUse(busy) - todo) + {k};
      } else {
        assert InUse(busy) - (todo - {k}) == InUse(busy) - todo;
      }
    }

    lemma ActiveInUse(busy: set<Key>)
      requires InfosOk()
      ensures |Active()| <= |InUse(busy)|
    {
      SubsetSize(Active(), InUse(busy));
    }

    lemma NoneInUse(busy: set<Key>)
      requires InfosOk() && sessions == map[]
      ensures InUse(busy) == {}
    {
    }

    // The sessions that count against the limit of active ones.
    ghost function InUse(busy: set<Key>): set<Key>
      reads this
      requires InfosOk()
    {
      set k | k in sessions && (k in busy || !infos[sessions[k]].completed)
    }

    method Admit(i: Info, ghost now: Time, ghost busy: set<Key>, ghost again: set<Key>)
      requires Valid() && i.key !in sessions && !i.completed && |Active()| < MAX_ACTIVE
      requires |sessions| < MAX_ACTIVE + MAX_TOMBSTONES && Pruned(now, busy, again)
      modifies this`infos, this`sessions
      ensures Valid() && infos == old(infos) + [i] && sessions == old(sessions)[i.key := |old(infos)|]
      ensures i.key !in holder && Pruned(now, busy, again)
    {
      hide Owned, Active;
      Register(i);
      assert forall k, b :: Evictable(k, b) <==> old(Evictable(k, b));
      assert Counted(busy) == old(Counted(busy));
    }

    method Register(i: Info)
      requires Valid() && i.key !in sessions && !i.completed && |Active()| < MAX_ACTIVE
      requires |sessions| < MAX_ACTIVE + MAX_TOMBSTONES
      modifies this`infos, this`sessions
      ensures Valid() && infos == old(infos) + [i] && sessions == old(sessions)[i.key := |old(infos)|]
      ensures i.key !in holder
    {
      hide OwnedIn, ActiveIn, InfosOkIn, AsideIn;
      RegisterKeeps(infos, sessions, holder, i);
      RegisterCounts(infos, sessions, i);
      RegisterKeepsAside(infos, holder, aside, attempts, i);
      infos, sessions := infos + [i], sessions[i.key := |infos|];
    }

    // The session's lock is held and it still accepts chunks: its staging directory is used.
    method Write(gen: nat, now: Time) returns (written: bool)
      requires Valid() && gen < |infos|
      modifies this`infos, this`holder
      ensures Valid() && written == old(infos)[gen].init
      ensures written ==>
                infos[gen].key in sessions && sessions[infos[gen].key] == gen &&
                  holder == old(holder)[infos[gen].key := gen]
      ensures written ==> infos == old(infos)[gen := old(infos)[gen].(clean := false, lastActivity := now)]
      ensures !written ==> infos == old(infos) && holder == old(holder)
    {
      hide OwnedIn, ActiveIn, InfosOkIn, AsideIn;
      written := infos[gen].init;
      if written {
        var i := infos[gen].(clean := false, lastActivity := now);
        WriterIsRegistered(gen);
        UpdateKeeps(infos, sessions, holder, gen, i, holder[i.key := gen]);
        UpdateKeepsAside(infos, holder, aside, attempts, gen, i);
        infos := infos[gen := i];
        holder := holder[i.key := gen];
      }
    }

    lemma WriterIsRegistered(gen: nat)
      requires Valid() && gen < |infos|
      ensures infos[gen].init ==> !infos[gen].completed && infos[gen].key in sessions && sessions[infos[gen].key] == gen
      ensures forall k | k in holder :: k in sessions && sessions[k] == holder[k]
      ensures infos[gen].clean && infos[gen].key in sessions && sessions[infos[gen].key] == gen ==>
                infos[gen].key !in holder
    {
    }

    // The target was published, or the session given up; no more chunks are accepted.
    method Close(gen: nat, published: bool, now: Time)
      requires Valid() && gen < |infos| && infos[gen].init
      modifies this`infos
      ensures Valid()
      ensures infos == old(infos)[gen :=
                old(infos)[gen].(init := false, completed := published, completedAt := if published then now else 0)]
    {
      hide OwnedIn, ActiveIn, InfosOkIn, AsideIn;
      var i := infos[gen].(init := false, completed := published, completedAt := if published then now else 0);
      WriterIsRegistered(gen);
      UpdateKeeps(infos, sessions, holder, gen, i, holder);
      UpdateKeepsAside(infos, holder, aside, attempts, gen, i);
      infos := infos[gen := i];
    }

    /** RemoveHeldTree: the tree is renamed first, and only then removed.  Success means that
        nothing is left under the staging name; the tree itself may have been set aside by an
        earlier attempt. */
    method RemoveHeldTree(key: Key, gen: nat, fate: Fate) returns (ok: bool)
      requires Valid() && gen < |infos| && !infos[gen].init && key in sessions && sessions[key] == gen
      requires infos[gen].key == key
      modifies this`holder, this`aside, this`attempts
      ensures Valid() && ok == Succeeds(key in old(holder), fate)
      ensures attempts == old(attempts) + [Attempt(gen, key in old(holder), fate)]
      ensures aside == old(aside) + (if SetsAside(Attempt(gen, key in old(holder), fate)) then {gen} else {})
      ensures holder == old(holder) || holder == old(holder) - {key}
      ensures ok || SetsAside(Attempt(gen, key in old(holder), fate)) ==> key !in holder
      ensures key in old(holder) && key !in holder ==> gen in aside || fate == AllWell || fate == Unsynced
    {
      hide OwnedIn, ActiveIn, InfosOkIn, AsideIn;
      ghost var present := key in holder;
      ghost var held, apart := holder, aside;
      RemovalKeeps(infos, sessions, holder, aside, attempts, key, gen, fate);
      attempts := attempts + [Attempt(gen, present, fate)];
      if fate == Refused { return false; }
      if key !in holder { return true; }
      // rename to a name of its own
      holder, aside := holder - {key}, aside + {gen};
      if fate.Misread? {
        if fate.restored {
          holder, aside := holder[key := gen], aside - {gen};
          Restored(held, apart, key, gen);
        }
        return false;
      }
      if fate == Stuck { return false; }
      // removed
      aside := aside - {gen};
      assert aside == apart;
      ok := fate == AllWell;
    }

    static lemma Restored(holder: map<Key, nat>, aside: set<nat>, key: Key, gen: nat)
      requires key in holder && holder[key] == gen && gen !in aside
      ensures (holder - {key})[key := gen] == holder && aside + {gen} - {gen} == aside
    {
    }

    /** deleteUploadSession: the key is free again only once nothing of this generation is left
        under its staging name; a completed generation keeps it. */
    method Delete(key: Key, gen: nat, now: Time, locked: bool, fate: Fate, busy: set<Key>, again: set<Key>)
      returns (cleaned: bool)
      requires Valid() && gen < |infos| && !infos[gen].init && infos[gen].key == key
      modifies this
      ensures Valid() && |infos| == |old(infos)|
      ensures cleaned <==> key in old(sessions) && old(sessions)[key] == gen && Succeeds(key in old(holder), fate)
      ensures if cleaned then key !in holder && Pruned(now, busy, again)
              else infos == old(infos) && sessions == old(sessions)
      ensures !(key in old(sessions) && old(sessions)[key] == gen) ==> unchanged(this)
      ensures cleaned ==> infos == if locked then old(infos) else old(infos)[gen := old(infos)[gen].(clean := true)]
      ensures cleaned && !locked && !infos[gen].completed ==> key !in sessions
      ensures key in old(sessions) && old(sessions)[key] == gen ==>
                && attempts == old(attempts) + [Attempt(gen, key in old(holder), fate)]
                && aside == old(aside) + (if SetsAside(Attempt(gen, key in old(holder), fate)) then {gen} else {})
                && (holder == old(holder) || holder == old(holder) - {key})
                && (SetsAside(Attempt(gen, key in old(holder), fate)) ==> key !in holder)
    {
      hide OwnedIn, ActiveIn, InfosOkIn, AsideIn, Counted, Pruned, Evictable, Expired, SetsAside, Succeeds;
      cleaned := key in sessions && sessions[key] == gen;
      if !cleaned { return; }
      cleaned := RemoveHeldTree(key, gen, fate);
      if !cleaned { return; }
      Cleaned(key, gen, locked);
      Prune(now, busy, again);
    }

    // Nothing of a registered, closed generation is left under its staging name.
    method Cleaned(key: Key, gen: nat, locked: bool)
      requires Valid() && gen < |infos| && !infos[gen].init && infos[gen].key == key && key in sessions
      requires sessions[key] == gen && key !in holder
      modifies this`infos, this`sessions
      ensures Valid() && |infos| == |old(infos)|
      ensures infos == if locked then old(infos) else old(infos)[gen := old(infos)[gen].(clean := true)]
      ensures sessions == if locked || infos[gen].completed then old(sessions) else old(sessions) - {key}
    {
      hide OwnedIn, ActiveIn, InfosOkIn, AsideIn;
      var i := if locked then infos[gen] else infos[gen].(clean := true);
      WriterIsRegistered(gen);
      UpdateKeeps(infos, sessions, holder, gen, i, holder);
      UpdateKeepsAside(infos, holder, aside, attempts, gen, i);
      assert infos[gen := infos[gen]] == infos;
      infos := infos[gen := i];
      if !locked && !i.completed {
        ForgetKeeps(infos, sessions, holder, key);
        sessions := sessions - {key};
      }
    }

    // What happened to key k in one turn of cleanupExpiredUploads.
    method ExpireOne(k: Key, now: Time, busy: set<Key>, fate: Fate)
      requires Valid() && k in sessions
      modifies this
      ensures Valid() && |infos| == |old(infos)|
      ensures SubMap(sessions, old(sessions)) && forall m | m in old(sessions) && m != k :: m in sessions
      ensures k !in sessions ==> k !in holder
      ensures var i, removed := old(infos[sessions[k]]), Succeeds(k in old(holder), fate);
              && (k !in sessions <==>
                k !in busy && if i.completed then i.clean && old(Expired(k, now)) else removed && old(Terminal(k, now)))
              && infos == old(infos)[old(sessions[k]) := i.(
                            init := i.init && (k in busy || !Idle(i, now)),
                            clean := i.clean || (k !in busy && removed && old(Terminal(k, now))))]
      ensures holder == old(holder) || holder == old(holder) - {k}
    {
      hide OwnedIn, ActiveIn, InfosOkIn, AsideIn, Succeeds, SetsAside;
      var g := sessions[k];
      RegisteredInfo(k);
      CompletedIsClosed(g);
      assert infos[g := infos[g]] == infos;
      if k in busy { return; }
      if infos[g].completed && infos[g].clean {
        if Expired(k, now) {
          CleanIsFree(k);
          Drop(k);
        }
        return;
      }
      if Idle(infos[g], now) { Stop(g); }
      if infos[g].init { return; }
      var removed := RemoveHeldTree(k, g, fate);
      if removed { Cleaned(k, g, false); }
    }

    lemma RegisteredInfo(k: Key)
      requires InfosOk() && k in sessions
      ensures sessions[k] < |infos| && infos[sessions[k]].key == k
    {
    }

    // The session accepts no more chunks.
    method Stop(g: nat)
      requires Valid() && g < |infos|
      modifies this`infos
      ensures Valid() && infos == old(infos)[g := old(infos)[g].(init := false)]
    {
      hide OwnedIn, ActiveIn, InfosOkIn, AsideIn;
      WriterIsRegistered(g);
      CompletedIsClosed(g);
      UpdateKeeps(infos, sessions, holder, g, infos[g].(init := false), holder);
      UpdateKeepsAside(infos, holder, aside, attempts, g, infos[g].(init := false));
      infos := infos[g := infos[g].(init := false)];
    }

    lemma CompletedIsClosed(g: nat)
      requires InfosOk() && g < |infos|
      ensures infos[g].completed ==> !infos[g].init
    {
    }

    /** cleanupExpiredUploads: a key is freed only when nothing of its generation is left under
        its staging name, and every session that is over is freed unless its removal fails. */
    method Expire(now: Time, busy: set<Key>, again: set<Key>, later: set<Key>, fates: map<Key, Fate>)
      requires Valid()
      modifies this
      ensures Valid() && |infos| == |old(infos)| && SubMap(sessions, old(sessions))
      ensures forall k | k in old(sessions) && k !in sessions :: k !in holder
      ensures forall k | k in busy && k in again && k in old(sessions) :: k in sessions
      ensures forall k | k in old(Due(now, busy, fates)) :: k !in sessions
      ensures Pruned(now, again, later)
    {
      hide OwnedIn, ActiveIn, InfosOkIn, AsideIn, Counted, Pruned;
      ExpireEach(now, busy, fates);
      Prune(now, again, later);
      FreeKeysAreEmpty();
    }

    method ExpireEach(now: Time, busy: set<Key>, fates: map<Key, Fate>)
      requires Valid()
      modifies this
      ensures Valid() && |infos| == |old(infos)| && SubMap(sessions, old(sessions))
      ensures forall k | k in busy && k in old(sessions) :: k in sessions
      ensures forall k | k in old(Due(now, busy, fates)) :: k !in sessions
    {
      hide OwnedIn, ActiveIn, InfosOkIn, AsideIn, Due;
      var todo := sessions.Keys;
      ghost var due := Due(now, busy, fates);
      DueAreSessions(now, busy, fates);
      while todo != {}
        invariant Valid() && |infos| == |old(infos)| && SubMap(sessions, old(sessions)) && todo <= sessions.Keys
        invariant forall k | k in busy && k in old(sessions) :: k in sessions
        invariant due * sessions.Keys <= todo && due * todo <= Due(now, busy, fates)
      {
        var k :| k in todo;
        todo := todo - {k};
        ExpireKey(k, now, busy, fates);
      }
      assert forall k | k in due && k in sessions :: k in due * sessions.Keys;
    }

    method ExpireKey(k: Key, now: Time, busy: set<Key>, fates: map<Key, Fate>)
      requires Valid() && k in sessions
      modifies this
      ensures Valid() && |infos| == |old(infos)|
      ensures SubMap(sessions, old(sessions)) && forall m | m in old(sessions) && (m != k || m in busy) :: m in sessions
      ensures old(Due(now, busy, fates)) - {k} <= Due(now, busy, fates)
      ensures k in old(Due(now, busy, fates)) ==> k !in sessions
    {
      hide OwnedIn, ActiveIn, AsideIn;
      ExpireOne(k, now, busy, FateOf(fates, k));
    }

    static function FateOf(fates: map<Key, Fate>, k: Key): Fate {
      if k in fates then fates[k] else AllWell
    }

    // The sessions that are not completed, over, and whose removal does not fail.
    ghost function Due(now: Time, busy: set<Key>, fates: map<Key, Fate>): set<Key>
      reads this
      requires InfosOk()
    {
      set k | k in sessions && k !in busy && Succeeds(k in holder, FateOf(fates, k)) && !infos[sessions[k]].completed &&
        Terminal(k, now)
    }

    lemma DueAreSessions(now: Time, busy: set<Key>, fates: map<Key, Fate>)
      requires InfosOk()
      ensures Due(now, busy, fates) <= sessions.Keys
    {
    }

    /** What is under a staging name belongs to the generation that has the key; a free key has
        nothing there. */
    lemma FreeKeysAreEmpty()
      requires Valid()
      ensures forall k | k !in sessions :: k !in holder
      ensures forall k | k in holder :: sessions[k] == holder[k]
    {
    }

    ghost predicate OnDisk(g: nat)
      reads this
    {
      g in aside || exists k | k in holder :: holder[k] == g
    }

    /** Files of a generation that no longer has its key remain on disk if and only if an
        attempt to remove them failed after its rename and before they were gone. */
    lemma FreedFilesRemainIff(g: nat)
      requires Valid() && g < |infos| && !(infos[g].key in sessions && sessions[infos[g].key] == g)
      ensures OnDisk(g) <==> WasSetAside(attempts, g)
    {
      hide WasSetAside;
    }
  }

  lemma StuckThenWell(gen: nat)
    ensures SetsAside(Attempt(gen, true, Stuck)) && !Succeeds(true, Stuck) && Succeeds(false, AllWell)
  {
  }

  // A registry where a generation has written under key "k" and was closed.
  method ClosedSession() returns (r: Registry, gen: nat)
    ensures fresh(r) && r.Valid() && gen < |r.infos| && r.infos[gen].key == "k" && !r.infos[gen].init
    ensures !r.infos[gen].completed
    ensures "k" in r.sessions && r.sessions["k"] == gen && "k" in r.holder
  {
    hide InfosOkIn, OwnedIn, ActiveIn, AsideIn, Registry.Pruned, Registry.Evictable, Registry.Counted;
    r := new Registry();
    r.NoneInUse({});
    var created, ok, written;
    gen, created, ok := r.GetOrCreate("k", 1, {}, {}, {}, true);
    written := r.Write(gen, 2);
    r.Close(gen, false, 3);
  }

  /** A run in which a key is freed while the files of its generation stay: the first attempt
      fails after its rename, and the second finds the staging name absent. */
  method FreedWithFilesLeft() returns (r: Registry, gen: nat)
    ensures r.Valid() && gen < |r.infos| && r.infos[gen].key == "k" && "k" !in r.sessions && r.OnDisk(gen)
  {
    hide InfosOkIn, OwnedIn, ActiveIn, AsideIn, Registry.Pruned, Registry.Evictable, Registry.Counted, Succeeds;
    hide SetsAside;
    r, gen := ClosedSession();
    StuckThenWell(gen);
    var cleaned := r.Delete("k", gen, 4, false, Stuck, {}, {});
    cleaned := r.Delete("k", gen, 5, false, AllWell, {}, {});
  }
}
