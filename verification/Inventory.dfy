/**
 Leases on managed mutations (pkg/filesecurity/managed_mutation_linux.go), and the inventory
 of transfer transactions that detects them (pkg/filesecurity/managed_recovery_linux.go).
 */
module Inventory {
  import opened Basics

  const MAX_SCANNED := 4096
  const MAX_ITEMS := 128
  const PREFIX := ".recasaos-transfer-"
  const HEX_LENGTH := 32

  // ---------- the mutation generation ----------

  // `generation` without wrap-around; whether the mutation lock is held, and by a close; for
  // each lease handed out whether its release function has done its work.
  datatype Leases = Leases(generation: nat, locked: bool, closing: bool, done: seq<bool>, closed: bool)

  datatype Event = Acquire | BeginClose | EndClose | Release(lease: nat)

  // The lock is free for those who wait for it; a release function may run at any time.
  predicate Can(s: Leases, e: Event) {
    match e
    case Release(lease) => lease < |s.done|
    case EndClose => s.closing
    case _ => !s.locked
  }

  // What follows one event.
  function After(s: Leases, e: Event): Leases
    requires Can(s, e)
  {
    match e
    case Acquire => if s.closed then s else s.(generation := s.generation + 1, locked := true, done := s.done + [false])
    case Release(lease) =>
      if s.done[lease] then s else s.(generation := s.generation + 1, locked := false, done := s.done[lease := true])
    case BeginClose => s.(generation := s.generation + 1, locked := true, closing := true, closed := true)
    case EndClose => s.(generation := s.generation + 1, locked := false, closing := false)
  }

  // The generation is odd exactly while the lock is held, and then by exactly one: the close
  // or the only lease whose release function has not done its work.
  ghost predicate Parity(s: Leases) {
    && (s.generation % 2 == 1 <==> s.locked)
    && (s.locked <==> s.closing || exists l :: Held(s, l))
    && (forall l | Held(s, l) :: !s.closing)
    && (forall l, m | Held(s, l) && Held(s, m) :: l == m)
  }

  ghost predicate Held(s: Leases, lease: int) {
    0 <= lease < |s.done| && !s.done[lease]
  }

  lemma StepKeepsParity(s: Leases, e: Event)
    requires Parity(s) && Can(s, e)
    ensures Parity(After(s, e)) && s.generation <= After(s, e).generation
    ensures |s.done| <= |After(s, e).done| && forall l | 0 <= l < |s.done| && s.done[l] :: After(s, e).done[l]
  {
    var t := After(s, e);
    match e
    case Acquire =>
      if !s.closed {
        assert Held(t, |s.done|) && forall l :: Held(t, l) <==> Held(s, l) || l == |s.done|;
      }
    case Release(lease) =>
      if !s.done[lease] {
        assert Held(s, lease);
        assert forall l :: Held(t, l) <==> Held(s, l) && l != lease;
      }
    case _ => assert forall l :: Held(t, l) <==> Held(s, l);
  }

  // The states of a run, the first and the last included.
  ghost predicate Run(states: seq<Leases>, events: seq<Event>) {
    && |states| == |events| + 1
    && forall i | 0 <= i < |events| :: Can(states[i], events[i]) && states[i + 1] == After(states[i], events[i])
  }

  lemma {:induction false} RunKeepsParity(states: seq<Leases>, events: seq<Event>, i: nat)
    requires Run(states, events) && Parity(states[0]) && i < |states|
    ensures Parity(states[i]) && states[0].generation <= states[i].generation
  {
    hide Parity, After;
    if i > 0 {
      RunKeepsParity(states, events, i - 1);
      assert states[i - 1 + 1] == After(states[i - 1], events[i - 1]);
      StepKeepsParity(states[i - 1], events[i - 1]);
    }
  }

  lemma {:induction false} GenerationGrows(states: seq<Leases>, events: seq<Event>, i: nat, k: nat)
    requires Run(states, events) && i <= k < |states|
    ensures states[i].generation <= states[k].generation
  {
    if i < k {
      GenerationGrows(states, events, i, k - 1);
      assert states[k - 1 + 1] == After(states[k - 1], events[k - 1]);
    }
  }

  /** Two equal even samples mean that no lease was out, and the roots were not being closed,
      at any moment in between. */
  lemma EqualSamplesMeanQuiet(states: seq<Leases>, events: seq<Event>)
    requires Run(states, events) && Parity(states[0])
    requires states[0].generation == states[|states| - 1].generation && states[0].generation % 2 == 0
    ensures forall i | 0 <= i < |states| :: !states[i].locked && states[i].generation == states[0].generation
    ensures forall i | 0 <= i < |events| :: events[i] != BeginClose && (events[i] == Acquire ==> states[i].closed)
  {
    forall i | 0 <= i < |states| ensures !states[i].locked && states[i].generation == states[0].generation {
      RunKeepsParity(states, events, i);
      GenerationGrows(states, events, i, |states| - 1);
    }
    forall i | 0 <= i < |events| ensures events[i] != BeginClose && (events[i] == Acquire ==> states[i].closed) {
      assert states[i + 1] == After(states[i], events[i]);
      assert states[i + 1].generation == states[i].generation;
    }
  }

  /** Conversely, a run in which no lease is ever out leaves the generation as it was. */
  lemma {:induction false} QuietMeansEqualSamples(states: seq<Leases>, events: seq<Event>, k: nat)
    requires Run(states, events) && Parity(states[0]) && k < |states| && forall i | 0 <= i <= k :: !states[i].locked
    ensures states[k].generation == states[0].generation && states[0].generation % 2 == 0
  {
    if k > 0 {
      QuietMeansEqualSamples(states, events, k - 1);
      RunKeepsParity(states, events, k - 1);
      if events[k - 1].Release? && !states[k - 1].done[events[k - 1].lease] {
        ReleaseFreesItsOwn(states[k - 1], events[k - 1].lease);
      }
      assert states[k - 1 + 1] == After(states[k - 1], events[k - 1]);
    }
  }

  /** A release function counts once: after it has done its work, running it again changes
      nothing, whoever holds the lock by then. */
  lemma {:induction false} ReleaseIsIdempotent(states: seq<Leases>, events: seq<Event>, lease: nat)
    requires Run(states, events) && Parity(states[0]) && lease < |states[0].done| && states[0].done[lease]
    ensures var s := states[|states| - 1]; lease < |s.done| && s.done[lease] && After(s, Release(lease)) == s
    decreases |events|
  {
    if events != [] {
      assert states[0 + 1] == After(states[0], events[0]);
      StepKeepsParity(states[0], events[0]);
      TailRun(states, events);
      ReleaseIsIdempotent(states[1..], events[1..], lease);
    }
  }

  /** And the one time it does its work, the lock it frees is its own. */
  lemma ReleaseFreesItsOwn(s: Leases, lease: nat)
    requires Parity(s) && Can(s, Release(lease)) && !s.done[lease]
    ensures s.locked && !s.closing && !After(s, Release(lease)).locked
    ensures forall l | Held(s, l) :: l == lease
  {
    assert Held(s, lease);
  }

  lemma TailRun(states: seq<Leases>, events: seq<Event>)
    requires Run(states, events) && events != []
    ensures Run(states[1..], events[1..])
  {
    forall i | 0 <= i < |events[1..]|
      ensures Can(states[1..][i], events[1..][i]) && states[1..][i + 1] == After(states[1..][i], events[1..][i])
    {
      assert states[i + 1 + 1] == After(states[i + 1], events[i + 1]);
    }
  }

  class Roots {
    var generation: nat
    var locked: bool
    var closing: bool
    // the sync.Once of each lease
    var done: seq<bool>
    var closed: bool

    function Abs(): Leases
      reads this
    {
      Leases(generation, locked, closing, done, closed)
    }

    constructor ()
      ensures Abs() == Leases(0, false, false, [], false) && Parity(Abs())
    {
      generation, locked, closing, done, closed := 0, false, false, [], false;
    }

    // AcquireMutation, once the lock is obtained
    method AcquireMutation() returns (lease: Option<nat>)
      requires Parity(Abs()) && !locked
      modifies this
      ensures Abs() == After(old(Abs()), Acquire) && Parity(Abs())
      ensures lease == if old(closed) then None else Some(|old(done)|)
    {
      hide Parity;
      StepKeepsParity(Abs(), Acquire);
      if closed { return None; }
      generation, locked := generation + 1, true;
      lease := Some(|done|);
      done := done + [false];
    }

    // the function AcquireMutation returns
    method ReleaseMutation(lease: nat)
      requires Parity(Abs()) && lease < |done|
      modifies this`generation, this`locked, this`done
      ensures Abs() == After(old(Abs()), Release(lease)) && Parity(Abs())
    {
      hide Parity;
      StepKeepsParity(Abs(), Release(lease));
      if !done[lease] {
        done := done[lease := true];
        generation, locked := generation + 1, false;
      }
    }

    method CloseRoots()
      requires Parity(Abs()) && !locked
      modifies this
      ensures Abs() == After(After(old(Abs()), BeginClose), EndClose) && Parity(Abs()) && closed
    {
      hide Parity;
      StepKeepsParity(Abs(), BeginClose);
      StepKeepsParity(After(Abs(), BeginClose), EndClose);
      generation, locked, closing := generation + 1, true, true;
      closed := true;
      generation, locked, closing := generation + 1, false, false;
    }
  }

  // ---------- the scan ----------

  datatype Finding = EntryLimit | CandidateLimit | ReadFailed | ParentChanged | ConcurrentMutation

  datatype Result = Result(scanned: nat, candidates: nat, items: seq<string>, complete: bool, truncated: bool,
    findings: seq<Finding>)

  // isManagedTransferTransactionName
  predicate TransactionName(n: string) {
    && PREFIX <= n && |n| == |PREFIX| + HEX_LENGTH
    && forall i | |PREFIX| <= i < |n| :: '0' <= n[i] <= '9' || 'a' <= n[i] <= 'f'
  }

  function Candidates(names: seq<string>): seq<string> {
    if names == [] then []
    else Candidates(names[..|names| - 1]) + if TransactionName(names[|names| - 1]) then [names[|names| - 1]] else []
  }

  function Min(a: nat, b: nat): nat { if a < b then a else b }

  // markManagedTransferInventoryIncomplete
  function Incomplete(r: Result, truncated: bool, f: Finding): Result {
    r.(complete := false, truncated := r.truncated || truncated,
       findings := if f in r.findings then r.findings else r.findings + [f])
  }

  // What the scan of the first n names leaves.
  ghost predicate ScannedTo(r: Result, names: seq<string>, n: nat)
    requires n <= |names|
  {
    var c := Candidates(names[..n]);
    && r.scanned == n && r.candidates == |c| && r.items == c[..Min(|c|, MAX_ITEMS)]
    && (r.complete <==> |c| <= MAX_ITEMS) && (r.truncated <==> |c| > MAX_ITEMS)
    && r.findings == if |c| > MAX_ITEMS then [CandidateLimit] else []
  }

  lemma CandidatesOneMore(names: seq<string>, n: nat)
    requires n < |names|
    ensures Candidates(names[..n + 1]) == if TransactionName(names[n]) then Candidates(names[..n]) + [names[n]]
              else Candidates(names[..n])
  {
    hide TransactionName;
    assert names[..n + 1][..n] == names[..n];
  }

  lemma ScanOne(r: Result, names: seq<string>, n: nat)
    requires n < |names| && ScannedTo(r, names, n)
    ensures var s := r.(scanned := r.scanned + 1);
            if !TransactionName(names[n]) then ScannedTo(s, names, n + 1)
            else var t := s.(candidates := s.candidates + 1);
                 ScannedTo(if |t.items| >= MAX_ITEMS then Incomplete(t, true, CandidateLimit)
                   else t.(items := t.items + [names[n]]), names, n + 1)
  {
    hide TransactionName, Candidates;
    CandidatesOneMore(names, n);
  }

  lemma {:induction false} CandidatesFilter(names: seq<string>)
    ensures Filters(names, TransactionName, Candidates(names))
  {
    hide Filters;
    if names == [] {
      FiltersNothing(TransactionName);
    } else {
      var n := |names| - 1;
      CandidatesFilter(names[..n]);
      FiltersOneMore(names[..n], TransactionName, Candidates(names[..n]), names[n]);
      assert names == names[..n] + [names[n]];
      CandidatesOneMore(names, n);
      assert names[..n + 1] == names;
    }
  }

  /** The transaction names are those this program gives: the prefix and 16 bytes in hex. */
  lemma TransactionNameIff(n: string)
    ensures TransactionName(n) <==>
              exists hex :: n == ".recasaos-transfer-" + hex && |hex| == 32 &&
                            forall i | 0 <= i < |hex| :: hex[i] in "0123456789abcdef"
  {
    if TransactionName(n) {
      var hex := n[19..];
      assert n == n[..19] + hex;
      forall i | 0 <= i < |hex| ensures hex[i] in "0123456789abcdef" { HexDigit(n[19 + i]); }
    }
    if hex :| n == ".recasaos-transfer-" + hex && |hex| == 32 &&
              forall i | 0 <= i < |hex| :: hex[i] in "0123456789abcdef"
    {
      forall i | 19 <= i < |n| ensures '0' <= n[i] <= '9' || 'a' <= n[i] <= 'f' {
        assert n[i] == hex[i - 19];
        HexDigit(n[i]);
      }
    }
  }

  lemma HexDigit(c: char)
    ensures c in "0123456789abcdef" <==> '0' <= c <= '9' || 'a' <= c <= 'f'
  {
    var all := "0123456789abcdef";
    if '0' <= c <= '9' { assert all[c as int - '0' as int] == c; }
    if 'a' <= c <= 'f' { assert all[10 + c as int - 'a' as int] == c; }
  }

  /** The scan of InventoryManagedTransferTransactions: at most 4096 entries are looked at,
      every candidate among them is counted and the first 128 are inspected; what was left
      out is always reported.  The n-th read hands out some entries and perhaps an error. */
  method Scan(names: seq<string>, some: nat -> nat, breaks: nat -> bool) returns (r: Result)
    ensures r.scanned <= 4096 && r.scanned <= |names|
    ensures exists c :: Filters(names[..r.scanned], TransactionName, c) && r.candidates == |c| &&
                        r.items == c[..Min(|c|, 128)]
    ensures r.complete <==> r.findings == []
    ensures r.truncated <==> EntryLimit in r.findings || CandidateLimit in r.findings
    ensures CandidateLimit in r.findings <==> r.candidates > 128
    ensures EntryLimit in r.findings ==> r.scanned == 4096 < |names|
    ensures ReadFailed in r.findings ==> exists n: nat :: breaks(n)
    ensures ReadFailed !in r.findings ==>
              r.scanned == Min(|names|, 4096) && (EntryLimit in r.findings <==> |names| > 4096)
    ensures forall f | f in r.findings :: f == EntryLimit || f == CandidateLimit || f == ReadFailed
  {
    hide TransactionName, Candidates, Filters;
    r := Result(0, 0, [], true, false, []);
    NothingScanned(names);
    var calls := 0;
    while true
      invariant r.scanned <= MAX_SCANNED && r.scanned <= |names| && ScannedTo(r, names, r.scanned)
      decreases |names| - r.scanned
    {
      // ReadDir hands out up to 256 of the entries left, perhaps with an error
      var until := Min(r.scanned + 1 + Min(some(calls), 255), |names|);
      for k := r.scanned to until
        invariant r.scanned == k <= MAX_SCANNED && ScannedTo(r, names, k)
      {
        if r.scanned >= MAX_SCANNED {
          CandidatesFilter(names[..k]);
          r := Incomplete(r, true, EntryLimit);
          return;
        }
        ScanOne(r, names, k);
        r := r.(scanned := r.scanned + 1);
        if TransactionName(names[k]) {
          r := r.(candidates := r.candidates + 1);
          r := if |r.items| >= MAX_ITEMS then Incomplete(r, true, CandidateLimit)
            else r.(items := r.items + [names[k]]);
        }
      }
      CandidatesFilter(names[..r.scanned]);
      if breaks(calls) {
        r := Incomplete(r, false, ReadFailed);
        return;
      }
      calls := calls + 1;
      if r.scanned == |names| { return; }
    }
  }

  lemma NothingScanned(names: seq<string>)
    ensures Candidates(names[..0]) == []
  {
  }

  /** The conclusion drawn from the two samples of the generation: the finding is added
      exactly when a mutation was in progress at some moment between them. */
  method Conclude(r: Result, before: nat, after: nat, ghost states: seq<Leases>, ghost events: seq<Event>)
    returns (s: Result)
    requires Run(states, events) && Parity(states[0]) && states[0].generation == before
    requires states[|states| - 1].generation == after
    ensures (forall i | 0 <= i < |states| :: !states[i].locked) ==> s == r
    ensures (exists i | 0 <= i < |states| :: states[i].locked) ==>
              s.items == r.items && !s.complete && s.truncated == r.truncated &&
                multiset(s.findings) >= multiset(r.findings) && ConcurrentMutation in s.findings
  {
    s := r;
    if before % 2 != 0 || after != before || after % 2 != 0 {
      s := Incomplete(s, false, ConcurrentMutation);
      if forall i | 0 <= i < |states| :: !states[i].locked { QuietMeansEqualSamples(states, events, |states| - 1); }
    } else {
      EqualSamplesMeanQuiet(states, events);
    }
  }
}
