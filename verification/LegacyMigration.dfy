/**
 Moving an installation of an old CasaOS to the managed Samba configuration
 (service/samba_legacy_config.go) and the reconciliation that drives it (service/shares.go).
 */
module LegacyMigration {
  import opened Basics
  import opened LegacyFragment
  import opened SambaRender

  // Both configuration files, their backups, and the database rows ordered by id.
  datatype State = State(main: File, shares: File, mainBak: File, sharesBak: File, rows: seq<Share>)

  // `legacyMain` and `managedMain` are the exact main configurations for the shares path.
  datatype Env = Env(legacyMain: string, managedMain: string, roots: Roots, testparm: string -> bool)

  ghost predicate Sound(env: Env) {
    MAIN_MARKER <= env.managedMain && !(MAIN_MARKER <= env.legacyMain)
  }

  // ---------- planning the rows ----------

  function Paths(rows: seq<Share>): (r: seq<string>)
    ensures |r| == |rows| && forall i | 0 <= i < |r| :: r[i] == rows[i].path
  {
    seq(|rows|, i requires 0 <= i < |rows| => rows[i].path)
  }

  // A path that may be rendered: canonical, with a usable name.
  predicate Usable(roots: Roots, path: string) {
    roots.canonical(path).Some? && roots.key(roots.canonical(path).value).Some?
  }

  function KeyOf(roots: Roots, path: string): string
    requires Usable(roots, path)
  {
    roots.key(roots.canonical(path).value).value
  }

  // No other usable row has the same path or the same name.
  predicate SafeAt(roots: Roots, paths: seq<string>, i: nat): (safe: bool)
    requires i < |paths|
    ensures safe ==> Usable(roots, paths[i])
  {
    && Usable(roots, paths[i])
    && forall k | 0 <= k < |paths| && k != i && Usable(roots, paths[k]) ::
         paths[k] != paths[i] && KeyOf(roots, paths[k]) != KeyOf(roots, paths[i])
  }

  function Secured(roots: Roots, row: Share): Share
    requires Usable(roots, row.path)
  {
    row.(name := roots.canonical(row.path).value, anonymous := false)
  }

  function Migrated(roots: Roots, rows: seq<Share>): (r: seq<Share>)
    ensures |r| == |rows| && Paths(r) == Paths(rows)
    ensures forall i | 0 <= i < |rows| ::
              r[i] == if SafeAt(roots, Paths(rows), i) then Secured(roots, rows[i]) else rows[i]
  {
    seq(|rows|, i requires 0 <= i < |rows| => if SafeAt(roots, Paths(rows), i) then Secured(roots, rows[i])
      else rows[i])
  }

  // The secured rows among the first n, in order.
  function SafeRows(roots: Roots, rows: seq<Share>, n: nat): seq<Share>
    requires n <= |rows|
  {
    if n == 0 then []
    else SafeRows(roots, rows, n - 1) + if SafeAt(roots, Paths(rows), n - 1) then [Secured(roots, rows[n - 1])] else []
  }

  // applying the plan would change a row
  predicate ChangesAt(roots: Roots, rows: seq<Share>, i: nat)
    requires i < |rows|
  {
    SafeAt(roots, Paths(rows), i) && Secured(roots, rows[i]) != rows[i]
  }

  predicate Mutates(roots: Roots, rows: seq<Share>) {
    exists i | 0 <= i < |rows| :: ChangesAt(roots, rows, i)
  }

  lemma {:induction false} SafeRowsDependOnPaths(roots: Roots, a: seq<Share>, b: seq<Share>, n: nat)
    requires Paths(a) == Paths(b) && n <= |a| == |b|
    requires forall i | 0 <= i < |a| && SafeAt(roots, Paths(a), i) :: Secured(roots, a[i]) == Secured(roots, b[i])
    ensures SafeRows(roots, a, n) == SafeRows(roots, b, n)
  {
    if n > 0 { SafeRowsDependOnPaths(roots, a, b, n - 1); }
  }

  /** Planning again after applying the plan finds the same rows and nothing to change. */
  lemma PlanIsIdempotent(roots: Roots, rows: seq<Share>)
    ensures Migrated(roots, Migrated(roots, rows)) == Migrated(roots, rows)
    ensures SafeRows(roots, Migrated(roots, rows), |rows|) == SafeRows(roots, rows, |rows|)
    ensures !Mutates(roots, Migrated(roots, rows))
    ensures Stanzas(Migrated(roots, rows)) == Stanzas(rows)
  {
    hide SafeAt, Stanza;
    var r := Migrated(roots, rows);
    assert forall i | 0 <= i < |rows| :: r[i].path == Paths(r)[i] && rows[i].path == Paths(rows)[i];
    SafeRowsDependOnPaths(roots, rows, r, |rows|);
  }

  lemma NoMutationIsIdentity(roots: Roots, rows: seq<Share>)
    requires !Mutates(roots, rows)
    ensures Migrated(roots, rows) == rows
  {
    hide SafeAt;
    var r := Migrated(roots, rows);
    forall i | 0 <= i < |rows| ensures r[i] == rows[i] { assert !ChangesAt(roots, rows, i); }
  }

  // ---------- the planner's count maps ----------

  // Usable rows before n that share the path (or, byName, the folded name) of `path`.
  function Alike(roots: Roots, paths: seq<string>, n: nat, path: string, byName: bool): nat
    requires n <= |paths| && Usable(roots, path)
  {
    if n == 0 then 0
    else Alike(roots, paths, n - 1, path, byName) + if Matches(roots, paths[n - 1], path, byName) then 1 else 0
  }

  predicate Matches(roots: Roots, p: string, path: string, byName: bool)
    requires Usable(roots, path)
  {
    Usable(roots, p) && if byName then KeyOf(roots, p) == KeyOf(roots, path) else p == path
  }

  lemma {:induction false} AlikeCounts(roots: Roots, paths: seq<string>, n: nat, i: nat, byName: bool)
    requires i < |paths| && n <= |paths| && Usable(roots, paths[i])
    ensures i >= n ==> (Alike(roots, paths, n, paths[i], byName) == 0 <==>
                          forall k | 0 <= k < n :: !Matches(roots, paths[k], paths[i], byName))
    ensures i < n ==> (Alike(roots, paths, n, paths[i], byName) == 1 <==>
                         forall k | 0 <= k < n && k != i :: !Matches(roots, paths[k], paths[i], byName))
    ensures i < n ==> Alike(roots, paths, n, paths[i], byName) >= 1
  {
    if n > 0 { AlikeCounts(roots, paths, n - 1, i, byName); }
  }

  lemma CountsAreOne(roots: Roots, paths: seq<string>, i: nat)
    requires i < |paths| && Usable(roots, paths[i])
    ensures SafeAt(roots, paths, i) <==>
              Alike(roots, paths, |paths|, paths[i], false) == 1 && Alike(roots, paths, |paths|, paths[i], true) == 1
  {
    hide Alike, Usable, KeyOf;
    AlikeCounts(roots, paths, |paths|, i, false);
    AlikeCounts(roots, paths, |paths|, i, true);
  }

  function Times(counts: map<string, nat>, k: string): nat { if k in counts then counts[k] else 0 }

  // The maps count the usable rows before n.
  ghost predicate CountedTo(roots: Roots, paths: seq<string>, n: nat, byPath: map<string, nat>,
                            byName: map<string, nat>)
    requires n <= |paths|
  {
    forall p | Usable(roots, p) ::
      && Times(byPath, p) == Alike(roots, paths, n, p, false)
      && Times(byName, KeyOf(roots, p)) == Alike(roots, paths, n, p, true)
  }

  method CountRows(roots: Roots, rows: seq<Share>) returns (byPath: map<string, nat>, byName: map<string, nat>)
    ensures CountedTo(roots, Paths(rows), |rows|, byPath, byName)
  {
    byPath, byName := map[], map[];
    for i := 0 to |rows|
      invariant CountedTo(roots, Paths(rows), i, byPath, byName)
    {
      var path := rows[i].path;
      if Usable(roots, path) {
        var key := KeyOf(roots, path);
        byPath := byPath[path := Times(byPath, path) + 1];
        byName := byName[key := Times(byName, key) + 1];
      }
    }
  }

  /** planLegacySambaSharesMigration */
  method PlanRows(roots: Roots, rows: seq<Share>) returns (safe: seq<Share>, mutation: bool)
    ensures safe == SafeRows(roots, rows, |rows|)
    ensures mutation <==> Mutates(roots, rows)
  {
    hide Alike, SafeAt, Usable, Secured, KeyOf;
    var byPath, byName := CountRows(roots, rows);
    safe, mutation := [], false;
    for i := 0 to |rows|
      invariant safe == SafeRows(roots, rows, i)
      invariant mutation <==> exists k | 0 <= k < i :: ChangesAt(roots, rows, k)
    {
      var row := rows[i];
      assert (exists k | 0 <= k < i + 1 :: ChangesAt(roots, rows, k)) <==> mutation || ChangesAt(roots, rows, i);
      if !Usable(roots, row.path) {
        NotUsableNotSafe(roots, Paths(rows), i);
        continue;
      }
      CountsAreOne(roots, Paths(rows), i);
      if Times(byPath, row.path) != 1 || Times(byName, KeyOf(roots, row.path)) != 1 { continue; }
      safe := safe + [Secured(roots, row)];
      if Secured(roots, row) != row { mutation := true; }
    }
  }

  lemma NotUsableNotSafe(roots: Roots, paths: seq<string>, i: nat)
    requires i < |paths| && !Usable(roots, paths[i])
    ensures !SafeAt(roots, paths, i)
  {
  }

  // ---------- one reconciliation ----------

  datatype Write = BackUpMain | BackUpShares | WriteMain | WriteShares(data: string) | Commit(rows: seq<Share>)

  function Do(env: Env, st: State, w: Write): State {
    match w
    case BackUpMain => if st.main.File? then st.(mainBak := File(st.main.data, PRIVATE)) else st
    case BackUpShares => if st.shares.File? then st.(sharesBak := File(st.shares.data, PRIVATE)) else st
    case WriteMain => st.(main := File(env.managedMain, PRIVATE))
    case WriteShares(data) => st.(shares := File(data, PRIVATE))
    case Commit(rows) => st.(rows := rows)
  }

  function DoAll(env: Env, st: State, ws: seq<Write>): State
    decreases |ws|
  {
    if ws == [] then st else DoAll(env, Do(env, st, ws[0]), ws[1..])
  }

  // What a run of ReconcileSambaConfig whose system calls succeed does: it refuses, or it
  // performs these writes in this order.
  datatype Outcome = Refused | Run(writes: seq<Write>)

  function CommitOf(was: seq<Share>, now: seq<Share>): seq<Write> {
    if was == now then [] else [Commit(now)]
  }

  predicate ManagedShares(st: State) {
    st.shares.File? && Marker() <= st.shares.data
  }

  function Candidate(env: Env, rows: seq<Share>): Option<string> {
    Render(env.roots, SafeRows(env.roots, rows, |rows|))
  }

  predicate BackupUsable(original: File, backup: File) {
    backup.Missing? || (original.File? && backup == File(original.data, PRIVATE))
  }

  // The backups are those this migration made.
  predicate BackupsVerified(env: Env, st: State, legacy: File) {
    && st.mainBak == File(env.legacyMain, PRIVATE)
    && if legacy.File? then st.sharesBak == File(legacy.data, PRIVATE) else st.sharesBak.Missing?
  }

  ghost predicate LegacyMatches(rows: seq<Share>, legacy: File) {
    if legacy.Missing? then rows == [] else Accepted(rows, legacy.data)
  }

  // The fragment, or its backup, is what the rows would have produced, and the secured rows
  // render to an acceptable candidate.
  ghost predicate Checked(env: Env, st: State) {
    && |st.rows| <= MAX_SHARES && LegacyMatches(st.rows, LegacyShares(st))
    && Candidate(env, st.rows).Some? && env.testparm(Candidate(env, st.rows).value)
  }

  function LegacyShares(st: State): File {
    if ManagedShares(st) then st.sharesBak else st.shares
  }

  predicate BackupsReady(env: Env, st: State, mainManaged: bool) {
    if mainManaged then BackupsVerified(env, st, LegacyShares(st))
    else BackupUsable(st.main, st.mainBak) && (st.shares.Missing? || BackupUsable(st.shares, st.sharesBak))
  }

  function BackupWrites(st: State): seq<Write> {
    (if st.mainBak.Missing? then [BackUpMain] else [])
      + (if st.shares.File? && st.sharesBak.Missing? then [BackUpShares] else [])
  }

  // migrateLegacySambaConfigLocked
  ghost function Migrate(env: Env, st: State, mainManaged: bool): Outcome {
    var c := Candidate(env, st.rows);
    if !Checked(env, st) || !BackupsReady(env, st, mainManaged) then Refused
    else if ManagedShares(st) && st.shares != File(c.value, PRIVATE) then Refused
    else Run(
      (if mainManaged then [] else BackupWrites(st) + [WriteMain])
      + (if ManagedShares(st) then [] else [WriteShares(c.value)])
      + CommitOf(st.rows, Migrated(env.roots, st.rows)))
  }

  datatype Inspection = NotPresent | Resume | Completed | Failed

  // inspectLegacySambaReconcileState
  ghost function Inspect(env: Env, st: State): Inspection {
    var c := Candidate(env, st.rows);
    if st.mainBak != File(env.legacyMain, PRIVATE) then NotPresent
    else if |st.rows| > MAX_SHARES then Failed
    else if st.sharesBak.Missing? && st.rows != [] then NotPresent
    else if st.sharesBak.File? &&
      (st.sharesBak.mode != PRIVATE || !Accepted(st.rows, st.sharesBak.data)) then NotPresent
    else if c.None? then Failed
    else if st.shares.Missing? then Resume
    else if st.shares != File(c.value, PRIVATE) then Failed
    else if Mutates(env.roots, st.rows) then Resume
    else Completed
  }

  // loadAndNormalizeLegacySambaShareNames
  predicate Normalizable(roots: Roots, rows: seq<Share>) {
    && |rows| <= MAX_SHARES
    && (forall i | 0 <= i < |rows| ::
        Usable(roots, rows[i].path) && (rows[i].name == "" || Some(rows[i].name) == roots.canonical(rows[i].path)))
    && (forall i, k | 0 <= i < k < |rows| ::
          rows[i].path != rows[k].path && KeyOf(roots, rows[i].path) != KeyOf(roots, rows[k].path))
  }

  function Normalized(roots: Roots, rows: seq<Share>): (r: seq<Share>)
    requires Normalizable(roots, rows)
    ensures |r| == |rows| && forall i | 0 <= i < |r| :: r[i] == rows[i].(name := roots.canonical(rows[i].path).value)
  {
    seq(|rows|, i requires 0 <= i < |rows| => rows[i].(name := roots.canonical(rows[i].path).value))
  }

  function PublishOf(st: State, c: string): seq<Write> {
    if st.shares.File? && st.shares.data == c then [] else [WriteShares(c)]
  }

  ghost function Normal(env: Env, st: State): Outcome {
    if !Normalizable(env.roots, st.rows) then Refused
    else
      var rows := Normalized(env.roots, st.rows);
      var c := Render(env.roots, rows);
      if c.None? || !env.testparm(c.value) then Refused
      else Run(PublishOf(st, c.value) + CommitOf(st.rows, rows))
  }

  // ReconcileSambaConfig, with a main configuration owned by this service
  ghost function Reconcile(env: Env, st: State): Outcome {
    if st.main.Missing? then Refused
    else
      var managedMain := st.main.data == env.managedMain;
      var managedShares := st.shares.Missing? || ManagedShares(st);
      if !managedMain || !managedShares then
        if st.main.data == env.legacyMain || managedMain then Migrate(env, st, managedMain) else Refused
      else match Inspect(env, st)
        case Failed => Refused
        case Resume => Migrate(env, st, true)
        case Completed => Run([])
        case NotPresent => Normal(env, st)
  }

  // ---------- crashes ----------

  // The run is interrupted right after the write w; these are the two places from which no
  // further run can go on.  In the first a fragment that already was managed has just been
  // backed up as if it were the legacy one.  In the second a missing fragment meets the
  // backup of an empty one.
  predicate StuckAfter(st: State, w: Write) {
    || (w == BackUpShares && ManagedShares(st))
    || (w == WriteMain && st.shares.Missing? && st.sharesBak == File("", PRIVATE))
  }

  lemma MarkerIsNotLegacy(rows: seq<Share>, data: string)
    requires Marker() <= data
    ensures !Accepted(rows, data)
  {
    hide Stanza, ValidPath;
    if Accepted(rows, data) {
      assert data[0] == '#';
      var s := FirstStanza(multiset(Stanzas(rows)), data);
      assert s in Stanzas(rows);
      var i :| 0 <= i < |rows| && Stanza(rows[i].path) == s;
      StanzaStarts(rows[i].path);
    }
  }

  lemma StanzaStarts(p: string)
    ensures Stanza(p) != "" && Stanza(p)[0] == '\n'
  {
  }

  lemma NoRowsAccepted(data: string)
    ensures Accepted([], data) <==> data == ""
  {
    NoStanzas([]);
    assert Stanzas([]) == [];
  }

  lemma AcceptanceDependsOnPaths(a: seq<Share>, b: seq<Share>, data: string)
    requires Paths(a) == Paths(b)
    ensures Accepted(a, data) <==> Accepted(b, data)
  {
    hide Stanza, Consumed, ValidPath, Concat;
    assert forall i | 0 <= i < |a| :: a[i].path == Paths(a)[i] == b[i].path;
    assert Stanzas(a) == Stanzas(b);
  }

  // What the proofs below need to know about the rows of a state.
  ghost predicate RowFacts(env: Env, st: State) {
    var rows, done := st.rows, Migrated(env.roots, st.rows);
    && |done| == |rows| && Candidate(env, done) == Candidate(env, rows)
    && Migrated(env.roots, done) == done && !Mutates(env.roots, done)
    && (Mutates(env.roots, rows) <==> done != rows)
    && (forall d :: Accepted(done, d) <==> Accepted(rows, d))
    && (Candidate(env, rows).Some? ==> Marker() <= Candidate(env, rows).value)
    && (forall d :: Marker() <= d ==> !Accepted(rows, d))
    && (rows == [] ==>
          done == [] && Normalizable(env.roots, []) && Normalized(env.roots, []) == [] &&
          Candidate(env, []) == Render(env.roots, []))
    && (rows == [] ==> forall d :: Accepted([], d) <==> d == "")
  }

  lemma RowFactsHold(env: Env, st: State)
    ensures RowFacts(env, st)
  {
    hide SafeAt, Accepted, Renderable, Body;
    var rows, done := st.rows, Migrated(env.roots, st.rows);
    PlanIsIdempotent(env.roots, rows);
    MutatesIff(env.roots, rows);
    forall d ensures Accepted(done, d) <==> Accepted(rows, d) { AcceptanceDependsOnPaths(done, rows, d); }
    forall d | Marker() <= d ensures !Accepted(rows, d) { MarkerIsNotLegacy(rows, d); }
    forall d ensures Accepted([], d) <==> d == "" { NoRowsAccepted(d); }
  }

  lemma MutatesIff(roots: Roots, rows: seq<Share>)
    ensures Mutates(roots, rows) <==> Migrated(roots, rows) != rows
  {
    hide SafeAt;
    if i :| 0 <= i < |rows| && ChangesAt(roots, rows, i) { assert Migrated(roots, rows)[i] != rows[i]; }
    if !Mutates(roots, rows) { NoMutationIsIdentity(roots, rows); }
  }

  ghost predicate NormalFacts(env: Env, rows: seq<Share>) {
    Normalizable(env.roots, rows) ==>
      var r := Normalized(env.roots, rows);
      && Normalizable(env.roots, r) && Normalized(env.roots, r) == r && |r| == |rows|
      && (forall d :: Accepted(r, d) <==> Accepted(rows, d))
      && (Render(env.roots, r).Some? ==> Marker() <= Render(env.roots, r).value)
  }

  lemma NormalFactsHold(env: Env, rows: seq<Share>)
    ensures NormalFacts(env, rows)
  {
    hide Accepted, KeyOf, Renderable, Body;
    if Normalizable(env.roots, rows) {
      var r := Normalized(env.roots, rows);
      assert forall i | 0 <= i < |r| :: r[i].path == rows[i].path;
      forall d ensures Accepted(r, d) <==> Accepted(rows, d) { AcceptanceDependsOnPaths(r, rows, d); }
    }
  }

  ghost predicate Resumes(env: Env, st: State)
    requires Reconcile(env, st).Run? && Reconcile(env, st).writes != []
  {
    var ws := Reconcile(env, st).writes;
    Reconcile(env, Do(env, st, ws[0])) == if StuckAfter(st, ws[0]) then Refused else Run(ws[1..])
  }

  lemma MainsDiffer(env: Env)
    requires Sound(env)
    ensures env.legacyMain != env.managedMain
  {
  }

  // Main configuration still legacy, fragment too.
  lemma LegacyBothResumes(env: Env, st: State)
    requires Sound(env) && RowFacts(env, st) && st.main.File? && st.main.data == env.legacyMain
    requires st.shares.File? && !ManagedShares(st)
    requires Reconcile(env, st).Run?
    ensures Reconcile(env, st).writes != [] && Resumes(env, st)
  {
    hide Accepted, Candidate, Render, Migrated, Mutates, Normalizable, Normalized, Marker, Sound, SafeRows;
    MainsDiffer(env);
  }

  // Main configuration still legacy, fragment managed.
  lemma LegacyMainOnlyResumes(env: Env, st: State)
    requires Sound(env) && RowFacts(env, st) && st.main.File? && st.main.data == env.legacyMain
    requires ManagedShares(st)
    requires Reconcile(env, st).Run?
    ensures Reconcile(env, st).writes != [] && Resumes(env, st)
  {
    hide Accepted, Candidate, Render, Migrated, Mutates, Normalizable, Normalized, Marker, Sound, SafeRows;
    MainsDiffer(env);
  }

  // Main configuration still legacy, no fragment.
  lemma LegacyMainAloneResumes(env: Env, st: State)
    requires Sound(env) && RowFacts(env, st) && st.main.File? && st.main.data == env.legacyMain
    requires st.shares.Missing?
    requires Reconcile(env, st).Run?
    ensures Reconcile(env, st).writes != [] && Resumes(env, st)
  {
    hide Accepted, Candidate, Render, Migrated, Mutates, Normalizable, Normalized, Marker, Sound, SafeRows;
    MainsDiffer(env);
  }

  // Main configuration managed, fragment still legacy.
  lemma LegacyFragmentResumes(env: Env, st: State)
    requires Sound(env) && RowFacts(env, st) && st.main.File? && st.main.data == env.managedMain
    requires st.shares.File? && !ManagedShares(st)
    requires Reconcile(env, st).Run?
    ensures Reconcile(env, st).writes != [] && Resumes(env, st)
  {
    hide Accepted, Candidate, Render, Migrated, Mutates, Normalizable, Normalized, Marker, Sound, SafeRows, Normal;
    MainsDiffer(env);
  }

  // Both managed, with a migration to resume.
  lemma ResumeResumes(env: Env, st: State)
    requires Sound(env) && RowFacts(env, st) && st.main.File? && st.main.data == env.managedMain
    requires (st.shares.Missing? || ManagedShares(st)) && Inspect(env, st).Resume?
    requires Reconcile(env, st).Run?
    ensures Reconcile(env, st).writes != [] && Resumes(env, st)
  {
    hide Accepted, Candidate, Render, Migrated, Mutates, Normalizable, Normalized, Marker, Sound, SafeRows, Normal;
    MainsDiffer(env);
  }

  // Both managed, nothing legacy in sight.
  lemma NormalResumes(env: Env, st: State)
    requires Sound(env) && NormalFacts(env, st.rows) && st.main.File? && st.main.data == env.managedMain
    requires (st.shares.Missing? || ManagedShares(st)) && Inspect(env, st).NotPresent?
    requires Reconcile(env, st).Run? && Reconcile(env, st).writes != []
    ensures Resumes(env, st)
  {
    hide Accepted, Candidate, Render, Migrated, Mutates, Normalizable, Normalized, Marker, Sound, SafeRows, Migrate;
  }

  // Each write of a run leaves a state from which the next run does exactly the rest.
  lemma StepResumes(env: Env, st: State)
    requires Sound(env) && Reconcile(env, st).Run? && Reconcile(env, st).writes != []
    ensures Resumes(env, st)
  {
    hide Accepted, Candidate, Render, Migrated, Mutates, Normalizable, Normalized, Marker, Sound, SafeRows, Migrate;
    hide Normal, Resumes, RowFacts, NormalFacts;
    RowFactsHold(env, st);
    NormalFactsHold(env, st.rows);
    MainsDiffer(env);
    if st.main.data == env.legacyMain {
      if st.shares.Missing? { LegacyMainAloneResumes(env, st); }
      else if ManagedShares(st) { LegacyMainOnlyResumes(env, st); }
      else { LegacyBothResumes(env, st); }
    }
    else if st.shares.File? && !ManagedShares(st) { LegacyFragmentResumes(env, st); }
    else if Inspect(env, st).Resume? { ResumeResumes(env, st); }
    else { NormalResumes(env, st); }
  }

  // Past a place where it would have been stuck, a run is as good as finished.
  lemma BeyondStuck(env: Env, st: State)
    requires Sound(env) && RowFacts(env, st)
    requires Reconcile(env, st).Run? && Reconcile(env, st).writes != [] && StuckAfter(st, Reconcile(env, st).writes[0])
    ensures var ws := Reconcile(env, st).writes;
            && Fragile(env, st) && |ws| == 2 && Reconcile(env, Do(env, Do(env, st, ws[0]), ws[1])) == Run([])
            && !StuckAfter(Do(env, st, ws[0]), ws[1])
  {
    hide Accepted, Candidate, Render, Migrated, Mutates, Normalizable, Normalized, Marker, Sound, SafeRows;
    MainsDiffer(env);
  }

  // A legacy main configuration beside a fragment that is already managed, or beside a
  // missing fragment with the backup of an empty one.
  predicate Fragile(env: Env, st: State) {
    && st.main.File? && st.main.data == env.legacyMain
    && (ManagedShares(st) || (st.shares.Missing? && st.sharesBak == File("", PRIVATE)))
  }

  ghost function Left(env: Env, st: State, k: nat): Outcome
    requires Reconcile(env, st).Run? && k <= |Reconcile(env, st).writes|
  {
    Run(Reconcile(env, st).writes[k..])
  }

  // The state a crash after the first k writes leaves.
  ghost function Crashed(env: Env, st: State, k: nat): State
    requires Reconcile(env, st).Run? && k <= |Reconcile(env, st).writes|
  {
    DoAll(env, st, Reconcile(env, st).writes[..k])
  }

  ghost predicate StuckAt(env: Env, st: State, k: nat)
    requires Reconcile(env, st).Run? && k <= |Reconcile(env, st).writes|
  {
    k > 0 && StuckAfter(Crashed(env, st, k - 1), Reconcile(env, st).writes[k - 1])
  }

  lemma CrashedStep(env: Env, st: State, k: nat)
    requires Reconcile(env, st).Run? && 0 < k <= |Reconcile(env, st).writes|
    requires Reconcile(env, Do(env, st, Reconcile(env, st).writes[0])) == Run(Reconcile(env, st).writes[1..])
    ensures var next := Do(env, st, Reconcile(env, st).writes[0]);
            && Crashed(env, st, k) == Crashed(env, next, k - 1) && Left(env, st, k) == Left(env, next, k - 1)
            && (k > 1 ==> (StuckAt(env, st, k) <==> StuckAt(env, next, k - 1)))
  {
    hide Reconcile, Do, StuckAfter;
    var ws := Reconcile(env, st).writes;
    assert ws[..k][1..] == ws[1..][..k - 1];
    assert k > 1 ==> ws[..k - 1][1..] == ws[1..][..k - 2];
  }

  lemma DoOne(env: Env, st: State, w: Write)
    ensures DoAll(env, st, [w]) == Do(env, st, w)
  {
    hide Do;
    assert [w][1..] == [];
  }

  lemma CrashedFirst(env: Env, st: State)
    requires Reconcile(env, st).Run? && |Reconcile(env, st).writes| > 0
    ensures Crashed(env, st, 0) == st && Left(env, st, 0) == Reconcile(env, st)
    ensures Crashed(env, st, 1) == Do(env, st, Reconcile(env, st).writes[0])
    ensures StuckAt(env, st, 1) <==> StuckAfter(st, Reconcile(env, st).writes[0])
    ensures |Reconcile(env, st).writes| > 1 ==>
              Crashed(env, st, 2) == Do(env, Do(env, st, Reconcile(env, st).writes[0]), Reconcile(env, st).writes[1])
  {
    hide Reconcile, Do, StuckAfter;
    var ws := Reconcile(env, st).writes;
    DoOne(env, st, ws[0]);
    assert ws[..1] == [ws[0]] && ws[..0] == [];
    if |ws| > 1 {
      assert ws[..2] == [ws[0], ws[1]] && [ws[0], ws[1]][1..] == [ws[1]];
      DoOne(env, Do(env, st, ws[0]), ws[1]);
    }
  }

  /** A run interrupted after any number of its writes is completed by the next run, which
      performs exactly the writes that were left, except in a stuck place, where every
      further run refuses. */
  lemma {:induction false} CrashResumes(env: Env, st: State, k: nat)
    requires Sound(env) && Reconcile(env, st).Run? && k <= |Reconcile(env, st).writes|
    ensures Reconcile(env, Crashed(env, st, k)) == if StuckAt(env, st, k) then Refused else Left(env, st, k)
    decreases k
  {
    hide Reconcile, Do, StuckAfter, Crashed, Left, StuckAt, Resumes, RowFacts, Fragile, Sound;
    if k == 0 {
      NothingDone(env, st);
    } else {
      CrashedFirst(env, st);
      StepResumesOpen(env, st);
      var ws := Reconcile(env, st).writes;
      if StuckAfter(st, ws[0]) {
        RowFactsHold(env, st);
        BeyondStuck(env, st);
        if k == 2 { StuckPassed(env, st); }
      } else {
        CrashedStep(env, st, k);
        CrashResumes(env, Do(env, st, ws[0]), k - 1);
        if k == 1 { NothingDone(env, Do(env, st, ws[0])); }
      }
    }
  }

  lemma NothingDone(env: Env, st: State)
    requires Reconcile(env, st).Run?
    ensures Crashed(env, st, 0) == st && Left(env, st, 0) == Reconcile(env, st) && !StuckAt(env, st, 0)
  {
    hide Reconcile, Do, StuckAfter;
  }

  lemma StuckPassed(env: Env, st: State)
    requires Reconcile(env, st).Run? && |Reconcile(env, st).writes| == 2
    requires !StuckAfter(Do(env, st, Reconcile(env, st).writes[0]), Reconcile(env, st).writes[1])
    ensures !StuckAt(env, st, 2) && Left(env, st, 2) == Run([])
  {
    hide Reconcile, Do, StuckAfter, Crashed;
    CrashedFirst(env, st);
  }

  lemma StepResumesOpen(env: Env, st: State)
    requires Sound(env) && Reconcile(env, st).Run? && Reconcile(env, st).writes != []
    ensures var ws := Reconcile(env, st).writes;
            Reconcile(env, Do(env, st, ws[0])) == if StuckAfter(st, ws[0]) then Refused else Run(ws[1..])
  {
    hide Reconcile, Do, StuckAfter, Sound;
    StepResumes(env, st);
  }

  lemma {:induction false} DoAllSplit(env: Env, st: State, a: seq<Write>, b: seq<Write>)
    ensures DoAll(env, DoAll(env, st, a), b) == DoAll(env, st, a + b)
    decreases |a|
  {
    hide Do;
    if a == [] {
      assert a + b == b;
    } else {
      assert (a + b)[1..] == a[1..] + b;
      DoAllSplit(env, Do(env, st, a[0]), a[1..], b);
    }
  }

  // What a successful run ends with.
  ghost function Finished(env: Env, st: State): State
    requires Reconcile(env, st).Run?
  {
    DoAll(env, st, Reconcile(env, st).writes)
  }

  /** Unless the crash falls in a stuck place, the next run ends with the same files, backups
      and rows as the run that was not interrupted. */
  lemma CrashEndsTheSame(env: Env, st: State, k: nat)
    requires Sound(env) && Reconcile(env, st).Run? && k <= |Reconcile(env, st).writes| && !StuckAt(env, st, k)
    ensures Reconcile(env, Crashed(env, st, k)).Run? && Finished(env, Crashed(env, st, k)) == Finished(env, st)
  {
    hide Reconcile, Do, StuckAt, Sound;
    CrashResumes(env, st, k);
    var ws := Reconcile(env, st).writes;
    DoAllSplit(env, st, ws[..k], ws[k..]);
    assert ws[..k] + ws[k..] == ws;
  }

  // ---------- exactly which states can get stuck ----------

  lemma LegacyRunStartsWith(env: Env, st: State)
    requires Sound(env) && Reconcile(env, st).Run? && Reconcile(env, st).writes != []
    ensures Reconcile(env, st).writes[0].WriteShares? || Reconcile(env, st).writes[0].Commit? ==>
              st.main.data == env.managedMain
    ensures Reconcile(env, st).writes[0].BackUpMain? ==> st.mainBak.Missing?
    ensures st.main.File?
  {
    hide Accepted, Candidate, Render, Migrated, Mutates, Normalizable, Normalized, Marker, Sound, SafeRows;
  }

  // A run that starts in a state that is not fragile is nowhere stuck.
  lemma {:induction false} SturdyIsNeverStuck(env: Env, st: State, k: nat)
    requires Sound(env) && Reconcile(env, st).Run? && k <= |Reconcile(env, st).writes| && !Fragile(env, st)
    ensures !StuckAt(env, st, k)
    decreases k
  {
    hide Reconcile, Do, StuckAfter, Crashed, Left, StuckAt, RowFacts, Sound, Fragile;
    if k == 0 {
      NothingDone(env, st);
    } else {
      CrashedFirst(env, st);
      StepResumesOpen(env, st);
      if StuckAfter(st, Reconcile(env, st).writes[0]) {
        RowFactsHold(env, st);
        BeyondStuck(env, st);
        assert false;
      } else if k > 1 {
        SturdyStays(env, st);
        CrashedStep(env, st, k);
        SturdyIsNeverStuck(env, Do(env, st, Reconcile(env, st).writes[0]), k - 1);
      }
    }
  }

  lemma SturdyStays(env: Env, st: State)
    requires Sound(env) && Reconcile(env, st).Run? && Reconcile(env, st).writes != [] && !Fragile(env, st)
    ensures !Fragile(env, Do(env, st, Reconcile(env, st).writes[0]))
  {
    hide Reconcile, Marker, Sound;
    LegacyRunStartsWith(env, st);
    MainsDiffer(env);
  }

  // A run that starts in a fragile state is stuck after its first or second write.
  lemma FragileGetsStuck(env: Env, st: State) returns (k: nat)
    requires Sound(env) && Reconcile(env, st).Run? && Fragile(env, st)
    ensures k <= |Reconcile(env, st).writes| && StuckAt(env, st, k)
  {
    hide Reconcile, Do, StuckAfter, Crashed, Left, StuckAt, RowFacts, Sound, Fragile;
    RowFactsHold(env, st);
    FragileRun(env, st);
    CrashedFirst(env, st);
    k := 1;
    if !StuckAfter(st, Reconcile(env, st).writes[0]) {
      StepResumesOpen(env, st);
      CrashedStep(env, st, 2);
      CrashedFirst(env, Do(env, st, Reconcile(env, st).writes[0]));
      k := 2;
    }
  }

  lemma FragileRun(env: Env, st: State)
    requires Sound(env) && RowFacts(env, st) && Reconcile(env, st).Run? && Fragile(env, st)
    ensures var ws := Reconcile(env, st).writes;
            && |ws| >= 2
            && (StuckAfter(st, ws[0]) || StuckAfter(Do(env, st, ws[0]), ws[1]))
  {
    hide Accepted, Candidate, Render, Migrated, Mutates, Normalizable, Normalized, Marker, Sound, SafeRows;
    MainsDiffer(env);
  }

  /** Every crash of a run can be resumed exactly when the run does not start from a legacy
      main configuration beside an already managed fragment, or beside a missing fragment
      with the backup of an empty one. */
  lemma EveryCrashResumesIff(env: Env, st: State)
    requires Sound(env) && Reconcile(env, st).Run?
    ensures (forall k: nat | k <= |Reconcile(env, st).writes| :: Reconcile(env, Crashed(env, st, k)).Run?) <==>
              !Fragile(env, st)
  {
    hide Reconcile, Crashed, Left, StuckAt, Sound, Fragile;
    forall k: nat | k <= |Reconcile(env, st).writes|
      ensures Reconcile(env, Crashed(env, st, k)).Run? <==> !StuckAt(env, st, k)
    {
      CrashResumes(env, st, k);
      LeftRuns(env, st, k);
    }
    if Fragile(env, st) {
      var k := FragileGetsStuck(env, st);
    } else {
      forall k: nat | k <= |Reconcile(env, st).writes| ensures !StuckAt(env, st, k) { SturdyIsNeverStuck(env, st, k); }
    }
  }

  lemma LeftRuns(env: Env, st: State, k: nat)
    requires Reconcile(env, st).Run? && k <= |Reconcile(env, st).writes|
    ensures Left(env, st, k).Run?
  {
  }

  lemma {:induction false} EndIsNotStuck(env: Env, st: State)
    requires Sound(env) && Reconcile(env, st).Run?
    ensures !StuckAt(env, st, |Reconcile(env, st).writes|)
    decreases if Reconcile(env, st).Run? then |Reconcile(env, st).writes| else 0
  {
    hide Reconcile, Do, StuckAfter, Crashed, Left, StuckAt, RowFacts, Sound, Fragile;
    var ws := Reconcile(env, st).writes;
    if ws == [] {
      NothingDone(env, st);
    } else {
      CrashedFirst(env, st);
      StepResumesOpen(env, st);
      if StuckAfter(st, ws[0]) {
        RowFactsHold(env, st);
        BeyondStuck(env, st);
        StuckPassed(env, st);
      } else if |ws| > 1 {
        CrashedStep(env, st, |ws|);
        EndIsNotStuck(env, Do(env, st, ws[0]));
      }
    }
  }

  /** After a run that was not interrupted, one more run writes nothing. */
  lemma OneMoreRunWritesNothing(env: Env, st: State)
    requires Sound(env) && Reconcile(env, st).Run?
    ensures Reconcile(env, Finished(env, st)) == Run([])
  {
    hide Reconcile, Do, StuckAt, Sound, StuckAfter;
    var ws := Reconcile(env, st).writes;
    CrashResumes(env, st, |ws|);
    assert ws[..|ws|] == ws && ws[|ws|..] == [];
    EndIsNotStuck(env, st);
  }

  /** Such a state: a fragment with no shares, already managed, beside the legacy main
      configuration.  A crash right after its backup leaves every further run refusing. */
  lemma ManagedFragmentGetsStuck(env: Env, mode: nat)
    requires Sound(env) && env.testparm(Marker())
    ensures var st := State(File(env.legacyMain, mode), File(Marker(), PRIVATE), Missing, Missing, []);
            && Reconcile(env, st) == Run([BackUpMain, BackUpShares, WriteMain])
            && Reconcile(env, Crashed(env, st, 2)) == Refused
  {
    var st := State(File(env.legacyMain, mode), File(Marker(), PRIVATE), Missing, Missing, []);
    NoRowsCandidate(env);
    RowFactsHold(env, st);
    hide Accepted, Candidate, Render, Migrated, Mutates, Normalizable, Normalized, Marker, Sound, SafeRows, StuckAt;
    hide Crashed;
    MainsDiffer(env);
    assert Reconcile(env, st) == Run([BackUpMain, BackUpShares, WriteMain]);
    CrashedFirst(env, st);
    StuckSecond(env, st);
    CrashResumes(env, st, 2);
  }

  lemma NoRowsCandidate(env: Env)
    ensures Candidate(env, []) == Some(Marker())
  {
    NoRows(env.roots);
    assert |Marker()| < 100;
  }

  lemma StuckSecond(env: Env, st: State)
    requires Reconcile(env, st).Run? && |Reconcile(env, st).writes| >= 2
    requires StuckAfter(Do(env, st, Reconcile(env, st).writes[0]), Reconcile(env, st).writes[1])
    ensures StuckAt(env, st, 2)
  {
    hide Reconcile, Do, StuckAfter, Crashed;
    CrashedFirst(env, st);
  }

  // ---------- what a run leaves ----------

  // The positions of the safe rows among the first n, in order.
  ghost predicate SafePositions(roots: Roots, rows: seq<Share>, n: nat, idx: seq<nat>)
    requires n <= |rows|
  {
    && (forall k | 0 <= k < |idx| :: idx[k] < n && SafeAt(roots, Paths(rows), idx[k]))
    && (forall k, m | 0 <= k < m < |idx| :: idx[k] < idx[m])
    && (forall i: nat | i < n && SafeAt(roots, Paths(rows), i) :: i in idx)
  }

  ghost function SecuredAt(roots: Roots, rows: seq<Share>, idx: seq<nat>): seq<Share>
    requires forall k | 0 <= k < |idx| :: idx[k] < |rows| && Usable(roots, rows[idx[k]].path)
  {
    seq(|idx|, k requires 0 <= k < |idx| && Usable(roots, rows[idx[k]].path) =>
      rows[idx[k]].(name := roots.canonical(rows[idx[k]].path).value, anonymous := false))
  }

  // The text is the managed fragment with exactly the safe rows, secured, in row order.
  ghost predicate SafeFragment(roots: Roots, rows: seq<Share>, text: string) {
    exists idx: seq<nat> :: SafePositions(roots, rows, |rows|, idx) && IsFragment(text, SecuredAt(roots, rows, idx))
  }

  lemma {:induction false} SafeRowsAt(roots: Roots, rows: seq<Share>, n: nat) returns (idx: seq<nat>)
    requires n <= |rows|
    ensures SafePositions(roots, rows, n, idx) && SafeRows(roots, rows, n) == SecuredAt(roots, rows, idx)
  {
    if n == 0 {
      idx := [];
    } else {
      idx := SafeRowsAt(roots, rows, n - 1);
      if SafeAt(roots, Paths(rows), n - 1) {
        var earlier := idx;
        idx := idx + [n - 1];
        OneMorePosition(roots, rows, n, earlier);
      }
    }
  }

  lemma OneMorePosition(roots: Roots, rows: seq<Share>, n: nat, idx: seq<nat>)
    requires 0 < n <= |rows| && SafePositions(roots, rows, n - 1, idx) && SafeAt(roots, Paths(rows), n - 1)
    ensures SafePositions(roots, rows, n, idx + [n - 1])
    ensures SecuredAt(roots, rows, idx + [n - 1]) == SecuredAt(roots, rows, idx) + [Secured(roots, rows[n - 1])]
  {
    hide KeyOf;
    var more := idx + [n - 1];
    forall i: nat | i < n && SafeAt(roots, Paths(rows), i) ensures i in more {
      if i == n - 1 { assert more[|idx|] == i; } else { assert i in idx; }
    }
  }

  lemma RenderedSafeRows(roots: Roots, rows: seq<Share>)
    requires Render(roots, SafeRows(roots, rows, |rows|)).Some?
    ensures SafeFragment(roots, rows, Render(roots, SafeRows(roots, rows, |rows|)).value)
  {
    hide Render, SafeAt, SafeRows, IsFragment;
    var idx := SafeRowsAt(roots, rows, |rows|);
    RenderedIsFragment(roots, SafeRows(roots, rows, |rows|));
  }

  // Which accounts the renderer takes.
  ghost predicate AccountsOk(roots: Roots, rows: seq<Share>) {
    forall i | 0 <= i < |rows| && SafeAt(roots, Paths(rows), i) ::
      rows[i].username == "" || roots.userOk(rows[i].username)
  }

  /** The plan renders: its rows are refused only for a bad account name. */
  lemma PlanRenders(roots: Roots, rows: seq<Share>)
    requires |rows| <= MAX_SHARES
    ensures Renderable(roots, SafeRows(roots, rows, |rows|)) <==> AccountsOk(roots, rows)
  {
    hide SafeAt, SafeRows;
    var idx := SafeRowsAt(roots, rows, |rows|);
    var safe := SecuredAt(roots, rows, idx);
    PositionsAreFew(idx, |rows|);
    assert forall i | 0 <= i < |rows| :: rows[i].path == Paths(rows)[i];
    if Renderable(roots, safe) {
      forall i: nat | i < |rows| && SafeAt(roots, Paths(rows), i)
        ensures rows[i].username == "" || roots.userOk(rows[i].username)
      {
        assert i in idx;
        var k :| 0 <= k < |idx| && idx[k] == i;
        assert RowOk(roots, safe[k]);
      }
    }
    forall k, m | 0 <= k < m < |safe|
      ensures safe[k].path != safe[m].path && roots.key(safe[k].name) != roots.key(safe[m].name)
    {
      SafeApart(roots, Paths(rows), idx[k], idx[m]);
    }
  }

  lemma SafeApart(roots: Roots, paths: seq<string>, i: nat, k: nat)
    requires i < |paths| && k < |paths| && i != k && SafeAt(roots, paths, i) && SafeAt(roots, paths, k)
    ensures paths[i] != paths[k] && KeyOf(roots, paths[i]) != KeyOf(roots, paths[k])
  {
  }

  lemma {:induction false} PositionsAreFew(idx: seq<nat>, n: nat)
    requires forall k | 0 <= k < |idx| :: idx[k] < n
    requires forall k, m | 0 <= k < m < |idx| :: idx[k] < idx[m]
    ensures |idx| <= n
    decreases |idx|
  {
    if idx != [] { PositionsAreFew(idx[..|idx| - 1], idx[|idx| - 1]); }
  }

  // What a migration leaves: both files managed, the backups of the legacy ones, and the safe
  // rows secured.
  ghost predicate MigratedTo(env: Env, was: State, mainManaged: bool, now: State) {
    && now.shares.File? && now.shares.mode == 0x180 && SafeFragment(env.roots, was.rows, now.shares.data)
    && |now.rows| == |was.rows|
    && (forall i | 0 <= i < |was.rows| ::
          now.rows[i] ==
            if SafeAt(env.roots, Paths(was.rows), i)
            then was.rows[i].(name := env.roots.canonical(was.rows[i].path).value, anonymous := false)
            else was.rows[i])
    && if mainManaged then now.main == was.main && now.mainBak == was.mainBak && now.sharesBak == was.sharesBak
       else
         && now.main == File(env.managedMain, 0x180) && was.main.File? && now.mainBak == File(was.main.data, 0x180)
         && now.sharesBak == if was.shares.File? then File(was.shares.data, 0x180) else was.sharesBak
  }

  lemma MigrationLeaves(env: Env, st: State, mainManaged: bool)
    requires st.main.File? && Migrate(env, st, mainManaged).Run?
    ensures MigratedTo(env, st, mainManaged, DoAll(env, st, Migrate(env, st, mainManaged).writes))
  {
    hide Accepted, SafeAt, Render, Marker, SafeFragment, SafeRows, Do;
    var c := Candidate(env, st.rows).value;
    var a := if mainManaged then [] else BackupWrites(st) + [WriteMain];
    var b := if ManagedShares(st) then [] else [WriteShares(c)];
    var d := CommitOf(st.rows, Migrated(env.roots, st.rows));
    RenderedSafeRows(env.roots, st.rows);
    DoAllSplit(env, st, a, b);
    DoAllSplit(env, st, a + b, d);
    FirstWrites(env, st, mainManaged, a);
    DoNone(env, DoAll(env, st, a));
    DoOne(env, DoAll(env, st, a), WriteShares(c));
    CommitLeaves(env, DoAll(env, st, a + b), Migrated(env.roots, st.rows));
    WriteLeaves(env, DoAll(env, st, a), c);
  }

  lemma DoNone(env: Env, st: State)
    ensures DoAll(env, st, []) == st
  {
  }

  lemma WriteLeaves(env: Env, st: State, c: string)
    ensures Do(env, st, WriteShares(c)) == st.(shares := File(c, PRIVATE))
  {
  }

  lemma CommitLeaves(env: Env, st: State, rows: seq<Share>)
    ensures DoAll(env, st, CommitOf(st.rows, rows)) == st.(rows := rows)
  {
    hide DoAll;
    DoNone(env, st);
    DoOne(env, st, Commit(rows));
  }

  lemma FirstWrites(env: Env, st: State, mainManaged: bool, a: seq<Write>)
    requires st.main.File? && (mainManaged || BackupsReady(env, st, false))
    requires a == if mainManaged then [] else BackupWrites(st) + [WriteMain]
    ensures DoAll(env, st, a) ==
              if mainManaged then st
              else st.(main := File(env.managedMain, PRIVATE), mainBak := File(st.main.data, PRIVATE),
                       sharesBak := if st.shares.File? then File(st.shares.data, PRIVATE) else st.sharesBak)
  {
    hide Marker, DoAll;
    DoNone(env, st);
    if !mainManaged {
      var first := if st.mainBak.Missing? then [BackUpMain] else [];
      var second := if st.shares.File? && st.sharesBak.Missing? then [BackUpShares] else [];
      DoAllSplit(env, st, first, second);
      DoAllSplit(env, st, first + second, [WriteMain]);
      DoOne(env, st, BackUpMain);
      var mid := DoAll(env, st, first);
      DoNone(env, mid);
      DoOne(env, mid, BackUpShares);
      DoOne(env, DoAll(env, mid, second), WriteMain);
    }
  }

  // What every successful run leaves: a managed main configuration, the fragment with exactly
  // the safe rows, and these rows secured.
  ghost predicate Reconciled(env: Env, st: State) {
    && st.main.File? && st.main.data == env.managedMain
    && st.shares.File? && SafeFragment(env.roots, st.rows, st.shares.data)
    && forall i | 0 <= i < |st.rows| && SafeAt(env.roots, Paths(st.rows), i) ::
         Secured(env.roots, st.rows[i]) == st.rows[i]
  }

  lemma FragmentStays(roots: Roots, a: seq<Share>, b: seq<Share>, text: string)
    requires |a| == |b| && Paths(a) == Paths(b) && SafeFragment(roots, a, text)
    requires forall i | 0 <= i < |a| && SafeAt(roots, Paths(a), i) :: Secured(roots, a[i]) == Secured(roots, b[i])
    ensures SafeFragment(roots, b, text)
  {
    hide IsFragment, SafeAt;
    var idx: seq<nat> :| SafePositions(roots, a, |a|, idx) && IsFragment(text, SecuredAt(roots, a, idx));
    assert forall i | 0 <= i < |a| :: a[i].path == Paths(a)[i] == b[i].path;
    assert SafePositions(roots, b, |b|, idx) && SecuredAt(roots, b, idx) == SecuredAt(roots, a, idx);
  }

  lemma MigratedIsReconciled(env: Env, was: State, mainManaged: bool, now: State)
    requires MigratedTo(env, was, mainManaged, now) && was.main.File?
    requires mainManaged ==> was.main.data == env.managedMain
    ensures Reconciled(env, now)
  {
    hide SafeFragment, SafeAt;
    assert Paths(now.rows) == Paths(was.rows);
    FragmentStays(env.roots, was.rows, now.rows, now.shares.data);
  }

  // Renderable rows are all safe and secured.
  lemma RenderableIsSafe(roots: Roots, rows: seq<Share>)
    requires Renderable(roots, rows)
    ensures forall i | 0 <= i < |rows| :: SafeAt(roots, Paths(rows), i) && Secured(roots, rows[i]) == rows[i]
  {
  }

  lemma RenderedRowsAreFragment(roots: Roots, rows: seq<Share>)
    requires Render(roots, rows).Some?
    ensures SafeFragment(roots, rows, Render(roots, rows).value)
    ensures forall i | 0 <= i < |rows| :: SafeAt(roots, Paths(rows), i) && Secured(roots, rows[i]) == rows[i]
  {
    hide SafeAt, Marker, Body, IsFragment, Renderable;
    RenderableIsSafe(roots, rows);
    RenderedIsFragment(roots, rows);
    var idx: seq<nat> := seq(|rows|, k => k);
    assert SecuredAt(roots, rows, idx) == rows;
    forall i: nat | i < |rows| ensures i in idx { assert idx[i] == i; }
    assert SafePositions(roots, rows, |rows|, idx);
  }

  /** Whatever branch it takes, a reconciliation that goes through leaves a managed main
      configuration, the fragment with exactly the safe rows in row order, and every row
      either secured or as it was but for its name. */
  lemma ReconciliationLeaves(env: Env, st: State)
    requires Reconcile(env, st).Run?
    ensures Reconciled(env, Finished(env, st))
    ensures var rows := Finished(env, st).rows;
            && |rows| == |st.rows|
            && forall i | 0 <= i < |rows| ::
                 rows[i] == st.rows[i].(name := rows[i].name, anonymous := rows[i].anonymous)
  {
    hide Migrate, Normal, Inspect, Marker, DoAll, SafeFragment, SafeAt, Reconciled;
    var managedMain := st.main.data == env.managedMain;
    if !managedMain || !(st.shares.Missing? || ManagedShares(st)) {
      MigrationLeaves(env, st, managedMain);
      MigratedIsReconciled(env, st, managedMain, Finished(env, st));
    } else {
      match Inspect(env, st)
      case Resume =>
        MigrationLeaves(env, st, true);
        MigratedIsReconciled(env, st, true, Finished(env, st));
      case Completed =>
        DoNone(env, st);
        CompletedIsReconciled(env, st);
      case NotPresent =>
        NormalLeaves(env, st);
      case Failed =>
    }
  }

  // The fragment with the safe rows is small enough and passes testparm.
  ghost predicate Publishable(env: Env, rows: seq<Share>) {
    forall text | SafeFragment(env.roots, rows, text) :: |text| <= 4 * 1024 * 1024 && env.testparm(text)
  }

  /** An old installation is migrated: the legacy main configuration beside a fragment that the
      rows account for and no backups yet, good account names and an acceptable result. */
  lemma LegacyMigrates(env: Env, st: State)
    requires Sound(env) && st.main.File? && st.main.data == env.legacyMain && |st.rows| <= 256
    requires st.mainBak.Missing? && st.sharesBak.Missing?
    requires if st.shares.Missing? then st.rows == [] else Accepted(st.rows, st.shares.data)
    requires AccountsOk(env.roots, st.rows) && Publishable(env, st.rows)
    ensures Reconcile(env, st).Run? && Reconciled(env, Finished(env, st))
    ensures Finished(env, st).mainBak == File(env.legacyMain, 0x180)
    ensures st.shares.File? ==> Finished(env, st).sharesBak == File(st.shares.data, 0x180)
  {
    hide SafeAt, Marker, SafeFragment, DoAll, Reconciled, Migrate, Inspect, Normal, Publishable, AccountsOk, Accepted;
    MainsDiffer(env);
    LegacyPasses(env, st);
    ReconciliationLeaves(env, st);
    MigrationLeaves(env, st, false);
  }

  lemma LegacyPasses(env: Env, st: State)
    requires st.main.File? && |st.rows| <= 256 && st.mainBak.Missing? && st.sharesBak.Missing?
    requires if st.shares.Missing? then st.rows == [] else Accepted(st.rows, st.shares.data)
    requires AccountsOk(env.roots, st.rows) && Publishable(env, st.rows)
    ensures Migrate(env, st, false).Run?
  {
    hide Accepted, Marker, Migrated, CommitOf, AccountsOk, Publishable, Candidate;
    CandidatePasses(env, st.rows);
    if st.shares.File? && Marker() <= st.shares.data {
      MarkerIsNotLegacy(st.rows, st.shares.data);
      assert false;
    }
  }

  lemma CandidatePasses(env: Env, rows: seq<Share>)
    requires |rows| <= 256 && AccountsOk(env.roots, rows) && Publishable(env, rows)
    ensures Candidate(env, rows).Some? && env.testparm(Candidate(env, rows).value)
  {
    hide AccountsOk, SafeFragment, Marker, SafeRows, Body, Renderable;
    PlanRenders(env.roots, rows);
    SafeTextIsFragment(env.roots, rows);
  }

  lemma SafeTextIsFragment(roots: Roots, rows: seq<Share>)
    ensures SafeFragment(roots, rows, Marker() + Body(SafeRows(roots, rows, |rows|)))
  {
    hide SafeAt, SafeRows, Body, Texts, InOrder, ShareText;
    var idx := SafeRowsAt(roots, rows, |rows|);
    BodyInOrder(Marker(), SecuredAt(roots, rows, idx));
  }

  lemma CompletedIsReconciled(env: Env, st: State)
    requires st.main.File? && st.main.data == env.managedMain && Inspect(env, st) == Completed
    ensures Reconciled(env, st)
  {
    hide SafeAt, SafeFragment, SafeRows, Accepted, Render;
    RenderedSafeRows(env.roots, st.rows);
    forall i | 0 <= i < |st.rows| && SafeAt(env.roots, Paths(st.rows), i)
      ensures Secured(env.roots, st.rows[i]) == st.rows[i]
    {
      assert !ChangesAt(env.roots, st.rows, i);
    }
  }

  lemma NormalLeaves(env: Env, st: State)
    requires st.main.File? && st.main.data == env.managedMain && Normal(env, st).Run?
    ensures var end := DoAll(env, st, Normal(env, st).writes);
            && Reconciled(env, end) && |end.rows| == |st.rows|
            && forall i | 0 <= i < |end.rows| :: end.rows[i] == st.rows[i].(name := end.rows[i].name)
  {
    hide SafeAt, SafeFragment, Render, Do, DoAll;
    var rows := Normalized(env.roots, st.rows);
    var c := Render(env.roots, rows).value;
    RenderedRowsAreFragment(env.roots, rows);
    DoAllSplit(env, st, PublishOf(st, c), CommitOf(st.rows, rows));
    DoNone(env, st);
    DoOne(env, st, WriteShares(c));
    WriteLeaves(env, st, c);
    CommitLeaves(env, DoAll(env, st, PublishOf(st, c)), rows);
  }

  // ---------- the service ----------

  class Installation {
    const env: Env
    var st: State
    ghost var first: State
    ghost var done: seq<Write>

    // The writes done so far lead from `first` to the present state.
    ghost predicate Valid()
      reads this
    {
      st == DoAll(env, first, done)
    }

    constructor (env: Env, st: State)
      ensures Valid() && this.env == env && this.st == st && done == []
    {
      this.env, this.st, first, done := env, st, st, [];
    }

    method Perform(w: Write)
      requires Valid()
      modifies this`st, this`done
      ensures Valid() && st == Do(env, old(st), w) && done == old(done) + [w]
    {
      DoAllSplit(env, first, done, [w]);
      DoOne(env, st, w);
      st, done := Do(env, st, w), done + [w];
    }

    method CommitRows(rows: seq<Share>)
      requires Valid()
      modifies this`st, this`done
      ensures Valid() && done == old(done) + CommitOf(old(st).rows, rows) && st == old(st).(rows := rows)
    {
      hide DoAll;
      if st.rows != rows { Perform(Commit(rows)); }
    }

    // ensureLegacyMigrationBackups
    method EnsureBackups() returns (ok: bool)
      requires Valid() && st.main.File?
      modifies this`st, this`done
      ensures Valid() && (ok <==> BackupsReady(env, old(st), false))
      ensures ok ==> done == old(done) + BackupWrites(old(st))
      ensures st == old(st).(mainBak := st.mainBak, sharesBak := st.sharesBak)
    {
      hide DoAll;
      ok := BackupUsable(st.main, st.mainBak);
      if !ok { return; }
      if st.mainBak.Missing? { Perform(BackUpMain); }
      if st.shares.Missing? { return; }
      ok := BackupUsable(st.shares, st.sharesBak);
      if ok && st.sharesBak.Missing? { Perform(BackUpShares); }
    }

    // The checks migrateLegacySambaConfigLocked makes before it writes anything.
    method Check() returns (c: Option<string>)
      ensures if Checked(env, st) then c == Candidate(env, st.rows) && c.Some? else c.None?
      ensures c.Some? ==> SafeFragment(env.roots, st.rows, c.value)
    {
      hide Accepted, SafeRows, Render, Marker, SafeFragment;
      c := None;
      if |st.rows| > MAX_SHARES { return; }
      var legacy := LegacyShares(st);
      if legacy.Missing? {
        if st.rows != [] { return; }
      } else {
        var valid := Validate(st.rows, legacy.data);
        if !valid { return; }
      }
      var safe, _ := PlanRows(env.roots, st.rows);
      c := RenderShares(env.roots, safe);
      if c.Some? { RenderedSafeRows(env.roots, st.rows); }
      if c.Some? && !env.testparm(c.value) { c := None; }
    }

    /** migrateLegacySambaConfigLocked: a run that goes through does the planned writes in
        order; one that refuses leaves both files and the rows as they were. */
    method MigrateFiles(mainManaged: bool) returns (ok: bool)
      requires Valid() && st.main.File?
      modifies this
      ensures Valid() && (ok <==> Migrate(env, old(st), mainManaged).Run?)
      ensures ok ==> done == old(done) + Migrate(env, old(st), mainManaged).writes
      ensures ok ==> st == DoAll(env, old(st), Migrate(env, old(st), mainManaged).writes)
      ensures ok ==> MigratedTo(env, old(st), mainManaged, st)
      ensures !ok ==> st.main == old(st).main && st.shares == old(st).shares && st.rows == old(st).rows
    {
      hide Checked, Candidate, Migrated, Marker, BackupsReady, BackupWrites, DoAll, MigratedTo, SafeFragment;
      ok := false;
      var c := Check();
      if c.None? { return; }
      var main := st.main;
      if mainManaged {
        ok := VerifyBackups();
      } else {
        ok := EnsureBackups();
        if ok { Perform(WriteMain); }
      }
      if !ok { return; }
      if ManagedShares(st) {
        if st.shares != File(c.value, PRIVATE) {
          RestoreMain(main);
          return false;
        }
      } else {
        Perform(WriteShares(c.value));
      }
      CommitRows(Migrated(env.roots, st.rows));
      DoAllSplit(env, first, old(done), Migrate(env, old(st), mainManaged).writes);
      MigrationLeaves(env, old(st), mainManaged);
    }

    // restoreConfigStateLocked, for a main configuration just replaced
    method RestoreMain(main: File)
      requires Valid()
      modifies this
      ensures Valid() && st == old(st).(main := main)
    {
      st := st.(main := main);
      first, done := st, [];
    }

    // inspectLegacySambaReconcileState
    method InspectFiles() returns (r: Inspection)
      ensures r == Inspect(env, st)
      ensures r == Completed && st.main.File? && st.main.data == env.managedMain ==> Reconciled(env, st)
    {
      hide Accepted, SafeRows, Render, Marker, DoAll, Mutates, Reconciled;
      if Inspect(env, st) == Completed && st.main.File? && st.main.data == env.managedMain {
        CompletedIsReconciled(env, st);
      }
      if st.mainBak != File(env.legacyMain, PRIVATE) { return NotPresent; }
      if |st.rows| > MAX_SHARES { return Failed; }
      if st.sharesBak.Missing? {
        if st.rows != [] { return NotPresent; }
      } else {
        if st.sharesBak.mode != PRIVATE { return NotPresent; }
        var valid := Validate(st.rows, st.sharesBak.data);
        if !valid { return NotPresent; }
      }
      var safe, mutation := PlanRows(env.roots, st.rows);
      var c := RenderShares(env.roots, safe);
      if c.None? { return Failed; }
      if st.shares.Missing? { return Resume; }
      if st.shares != File(c.value, PRIVATE) { return Failed; }
      return if mutation then Resume else Completed;
    }

    // The ordinary branch of ReconcileSambaConfig.
    method NormalFiles() returns (ok: bool)
      requires Valid()
      modifies this`st, this`done
      ensures Valid() && (ok <==> Normal(env, old(st)).Run?)
      ensures ok ==> done == old(done) + Normal(env, old(st)).writes
      ensures !ok ==> st == old(st)
    {
      hide Render, Marker, DoAll, Normalizable, Normalized;
      ok := false;
      if !Normalizable(env.roots, st.rows) { return; }
      var rows := Normalized(env.roots, st.rows);
      var c := RenderShares(env.roots, rows);
      if c.None? || !env.testparm(c.value) { return; }
      if !(st.shares.File? && st.shares.data == c.value) { Perform(WriteShares(c.value)); }
      CommitRows(rows);
      ok := true;
    }

    /** ReconcileSambaConfig: what a run does is what Reconcile says, and a run that refuses
        leaves both files and the rows as they were. */
    method ReconcileFiles() returns (ok: bool)
      requires Valid()
      modifies this
      ensures Valid() && (ok <==> Reconcile(env, old(st)).Run?)
      ensures ok ==> done == old(done) + Reconcile(env, old(st)).writes && st == Finished(env, old(st))
      ensures ok ==> Reconciled(env, st)
      ensures ok ==>
                && |st.rows| == |old(st).rows|
                && forall i | 0 <= i < |st.rows| ::
                     st.rows[i] == old(st).rows[i].(name := st.rows[i].name, anonymous := st.rows[i].anonymous)
      ensures !ok ==> st.main == old(st).main && st.shares == old(st).shares && st.rows == old(st).rows
    {
      hide Migrate, Normal, Inspect, Marker, DoAll, MigratedTo, Reconciled;
      ok := false;
      if Reconcile(env, st).Run? { ReconciliationLeaves(env, st); }
      if st.main.Missing? { return; }
      var managedMain := st.main.data == env.managedMain;
      if !managedMain || !(st.shares.Missing? || ManagedShares(st)) {
        if st.main.data == env.legacyMain || managedMain { ok := MigrateFiles(managedMain); }
        return;
      }
      var inspection := InspectFiles();
      match inspection
      case Failed =>
      case Resume => ok := MigrateFiles(true);
      case Completed =>
        ok := true;
        DoAllSplit(env, first, old(done), []);
        assert old(done) + [] == old(done);
      case NotPresent =>
        ok := NormalFiles();
        if ok { DoAllSplit(env, first, old(done), Normal(env, old(st)).writes); }
    }

    // verifyLegacyMigrationBackups
    method VerifyBackups() returns (ok: bool)
      ensures ok <==> BackupsReady(env, st, true)
    {
      ok := BackupsVerified(env, st, LegacyShares(st));
    }
  }
}
