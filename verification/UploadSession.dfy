/**
 One resumable upload (service/file_upload.go): chunks arrive in any order, with retries and
 failures, are recorded with digests and finally assembled into the target.
 */
module UploadSession {
  import opened Basics

  newtype int64 = x: int | -0x8000_0000_0000_0000 <= x < 0x8000_0000_0000_0000

  const MAX_CHUNK_SIZE: int64 := 256 * 0x10_0000
  const MAX_CHUNKS: int64 := 256
  const MAX_TOTAL_SIZE: int64 := 256 * 256 * 0x10_0000

  type Bytes = seq<bv8>

  // SHA-256, taken to be injective
  datatype Digest = Sha256(of: Bytes)

  // ---------- request arithmetic (pkg/filesecurity/filesecurity.go), in 64 bits ----------

  predicate ValidateChunk(totalChunks: int64, chunkNumber: int64) {
    1 <= totalChunks <= MAX_CHUNKS && 1 <= chunkNumber <= totalChunks
  }

  lemma CapacityFits(chunks: int64, size: int64)
    requires 0 <= chunks <= MAX_CHUNKS && 0 <= size <= MAX_CHUNK_SIZE
    ensures 0 <= chunks as int * size as int <= MAX_TOTAL_SIZE as int
  {
    MulBound(chunks as int, size as int, MAX_CHUNKS as int, MAX_CHUNK_SIZE as int);
  }

  lemma MulBound(a: int, b: int, c: int, d: int)
    requires 0 <= a <= c && 0 <= b <= d
    ensures 0 <= a * b <= c * d
  {
    assert a * b <= a * d <= c * d;
  }

  predicate ValidateUploadSizes(chunkSize: int64, current: int64, totalSize: int64, totalChunks: int64) {
    && 1 <= chunkSize <= MAX_CHUNK_SIZE && 0 <= current <= chunkSize
    && 0 <= totalSize <= MAX_TOTAL_SIZE && 1 <= totalChunks <= MAX_CHUNKS
    && (CapacityFits(totalChunks, chunkSize); totalSize <= totalChunks * chunkSize)
    && !(totalSize == 0 && (totalChunks != 1 || current != 0))
    && !(totalSize > 0 && current == 0)
  }

  predicate ValidateChunkShape(chunkNumber: int64, chunkSize: int64, current: int64, totalChunks: int64,
                               totalSize: int64)
    requires ValidateChunk(totalChunks, chunkNumber) && ValidateUploadSizes(chunkSize, current, totalSize, totalChunks)
  {
    CapacityFits(totalChunks - 1, chunkSize);
    if totalSize == 0 then true
    else
      var minimum := (totalChunks - 1) * chunkSize;
      minimum < totalSize && current == if chunkNumber == totalChunks then totalSize - minimum else chunkSize
  }

  predicate Admitted(number: int64, chunkSize: int64, current: int64, chunks: int64, total: int64) {
    && ValidateChunk(chunks, number) && ValidateUploadSizes(chunkSize, current, total, chunks)
    && ValidateChunkShape(number, chunkSize, current, chunks, total)
  }

  // How an upload is cut: all chunks but the last have the chunk size.
  datatype Cut = Cut(chunks: nat, chunkSize: nat, total: nat)

  predicate ValidCut(c: Cut) {
    && 1 <= c.chunks <= MAX_CHUNKS as int && 1 <= c.chunkSize <= MAX_CHUNK_SIZE as int
    && if c.total == 0 then c.chunks == 1 else (c.chunks - 1) * c.chunkSize < c.total <= c.chunks * c.chunkSize
  }

  function Length(c: Cut, i: nat): nat
    requires ValidCut(c) && i < c.chunks
  {
    if c.total == 0 then 0 else if i + 1 == c.chunks then c.total - (c.chunks - 1) * c.chunkSize else c.chunkSize
  }

  /** The 64-bit checks admit exactly the chunks of a well-formed cut, with their lengths. */
  lemma AdmittedIff(number: int64, chunkSize: int64, current: int64, chunks: int64, total: int64)
    ensures Admitted(number, chunkSize, current, chunks, total) <==>
              && 1 <= chunks <= MAX_CHUNKS && 1 <= chunkSize <= MAX_CHUNK_SIZE && 0 <= total && 1 <= number <= chunks
              && ValidCut(Cut(chunks as int, chunkSize as int, total as int))
              && current as int == Length(Cut(chunks as int, chunkSize as int, total as int), number as int - 1)
  {
    if 1 <= chunks <= MAX_CHUNKS && 1 <= chunkSize <= MAX_CHUNK_SIZE {
      CapacityFits(chunks, chunkSize);
      CapacityFits(chunks - 1, chunkSize);
      assert chunks as int * chunkSize as int == (chunks as int - 1) * chunkSize as int + chunkSize as int;
    }
  }

  function Least(a: int, b: int): int { if a < b then a else b }

  /** The cut covers the file without gap or overlap: chunk `number` is admitted exactly with
      the length of its part of the bytes, from (number - 1) times the chunk size up to number
      times that or the end. */
  lemma AdmittedExactly(number: int64, chunkSize: int64, current: int64, chunks: int64, total: int64)
    ensures Admitted(number, chunkSize, current, chunks, total) <==>
              var n, size, all := number as int, chunkSize as int, total as int;
              && 1 <= n <= chunks as int <= 256 && 1 <= size <= 0x1000_0000 && 0 <= all
              && (if all == 0 then chunks == 1 else (chunks as int - 1) * size < all <= chunks as int * size)
              && current as int == Least(n * size, all) - (n - 1) * size
  {
    AdmittedIff(number, chunkSize, current, chunks, total);
    var n, size, all := number as int, chunkSize as int, total as int;
    if 1 <= n <= chunks as int <= 256 && 1 <= size {
      assert n * size == (n - 1) * size + size;
      if n < chunks as int { Multiples(n, chunks as int - 1, size); }
    }
  }

  lemma Multiples(a: int, b: int, size: int)
    requires a <= b && size >= 0
    ensures a * size <= b * size
  {
  }

  // ---------- contents ----------

  // The recorded chunks before n, one after the other.
  ghost function Joined(contents: map<nat, Bytes>, n: nat): Bytes {
    if n == 0 then [] else Joined(contents, n - 1) + if n - 1 in contents then contents[n - 1] else []
  }

  ghost predicate Sized(c: Cut, contents: map<nat, Bytes>)
    requires ValidCut(c)
  {
    forall i: nat | i in contents :: i < c.chunks && |contents[i]| == Length(c, i)
  }

  lemma {:induction false} JoinedLength(c: Cut, contents: map<nat, Bytes>, n: nat)
    requires ValidCut(c) && Sized(c, contents) && n <= c.chunks && forall i: nat | i < n :: i in contents
    ensures |Joined(contents, n)| == if n == c.chunks then c.total else n * c.chunkSize
  {
    if n > 0 {
      JoinedLength(c, contents, n - 1);
      assert n * c.chunkSize == (n - 1) * c.chunkSize + c.chunkSize;
    }
  }

  // Where chunk i of the cut starts.
  function Start(c: Cut, i: nat): nat { i * c.chunkSize }

  // The bytes hold every chunk at its place, and nothing else.
  ghost predicate InPlace(c: Cut, contents: map<nat, Bytes>, bytes: Bytes) {
    |bytes| == c.total && forall i: nat | i < c.chunks :: PlacedAt(c, contents, bytes, i)
  }

  ghost predicate PlacedAt(c: Cut, contents: map<nat, Bytes>, bytes: Bytes, i: nat) {
    && i in contents && Start(c, i) + |contents[i]| <= |bytes|
    && bytes[Start(c, i)..Start(c, i) + |contents[i]|] == contents[i]
    && Start(c, i) + |contents[i]| == if i + 1 == c.chunks then c.total else Start(c, i + 1)
  }

  lemma {:induction false} JoinedInPlace(c: Cut, contents: map<nat, Bytes>, n: nat, i: nat)
    requires ValidCut(c) && Sized(c, contents) && i < n <= c.chunks && forall k: nat | k < n :: k in contents
    ensures var all := Joined(contents, n);
            && Start(c, i) + |contents[i]| <= |all|
            && all[Start(c, i)..Start(c, i) + |contents[i]|] == contents[i]
  {
    JoinedLength(c, contents, n);
    JoinedLength(c, contents, n - 1);
    var before := Joined(contents, n - 1);
    assert Joined(contents, n) == before + contents[n - 1];
    if i == n - 1 {
      assert |before| == Start(c, i);
    } else {
      JoinedInPlace(c, contents, n - 1, i);
      var a, b := Start(c, i), Start(c, i) + |contents[i]|;
      assert (before + contents[n - 1])[a..b] == before[a..b];
    }
  }

  lemma JoinedIsInPlace(c: Cut, contents: map<nat, Bytes>)
    requires ValidCut(c) && Sized(c, contents) && forall k: nat | k < c.chunks :: k in contents
    ensures InPlace(c, contents, Joined(contents, c.chunks))
  {
    JoinedLength(c, contents, c.chunks);
    forall i: nat | i < c.chunks ensures PlacedAt(c, contents, Joined(contents, c.chunks), i) {
      JoinedInPlace(c, contents, c.chunks, i);
      assert Start(c, i + 1) == Start(c, i) + c.chunkSize;
      if i + 1 == c.chunks { JoinedLength(c, contents, i); }
    }
  }

  function Flags(uploaded: seq<bool>): nat {
    if uploaded == [] then 0 else Flags(uploaded[..|uploaded| - 1]) + if uploaded[|uploaded| - 1] then 1 else 0
  }

  lemma {:induction false} FlagsUpdate(uploaded: seq<bool>, i: nat, b: bool)
    requires i < |uploaded|
    ensures Flags(uploaded[i := b]) == Flags(uploaded) - (if uploaded[i] then 1 else 0) + (if b then 1 else 0)
    ensures uploaded[i] ==> Flags(uploaded) > 0
  {
    var n := |uploaded| - 1;
    if i < n {
      FlagsUpdate(uploaded[..n], i, b);
      assert uploaded[i := b][..n] == uploaded[..n][i := b];
    } else {
      assert uploaded[i := b][..n] == uploaded[..n];
    }
  }

  lemma {:induction false} AllSet(uploaded: seq<bool>)
    ensures Flags(uploaded) <= |uploaded|
    ensures Flags(uploaded) == |uploaded| <==> forall i | 0 <= i < |uploaded| :: uploaded[i]
  {
    if uploaded != [] {
      var n := |uploaded| - 1;
      AllSet(uploaded[..n]);
      assert forall i | 0 <= i < n :: uploaded[..n][i] == uploaded[i];
    }
  }

  lemma {:induction false} NoneSet(n: nat)
    ensures Flags(seq(n, i => false)) == 0
  {
    if n > 0 {
      NoneSet(n - 1);
      assert seq(n, i => false)[..n - 1] == seq(n - 1, i => false);
    }
  }

  // ---------- runs ----------

  // What happens to the chunks of a session: a request that belongs to it asks for a chunk to
  // be recorded, a chunk is written, or the file of a recorded chunk is found missing.
  datatype Step = Asked(i: nat, data: Bytes) | Wrote(i: nat, data: Bytes) | Lost(i: nat)

  // The contents recorded after a history.
  ghost function Replay(h: seq<Step>): map<nat, Bytes> {
    if h == [] then map[]
    else After(Replay(h[..|h| - 1]), h[|h| - 1])
  }

  ghost function After(m: map<nat, Bytes>, e: Step): map<nat, Bytes> {
    match e
    case Asked(_, _) => m
    case Wrote(i, data) => m[i := data]
    case Lost(i) => m - {i}
  }

  ghost predicate May(h: seq<Step>, e: Step) {
    match e
    case Asked(_, _) => true
    case Wrote(i, data) => Asked(i, data) in h && i !in Replay(h)
    case Lost(i) => i in Replay(h)
  }

  // Only what was asked for is written, and only where nothing is recorded.
  ghost predicate LawfulAt(h: seq<Step>, k: nat)
    requires k < |h|
  {
    May(h[..k], h[k])
  }

  ghost predicate Lawful(h: seq<Step>) {
    forall k: nat | k < |h| :: LawfulAt(h, k)
  }

  lemma LawfulOneMore(h: seq<Step>, e: Step)
    requires Lawful(h) && May(h, e)
    ensures Lawful(h + [e]) && Replay(h + [e]) == After(Replay(h), e)
  {
    var more := h + [e];
    assert more[..|h|] == h;
    forall k: nat | k < |more| ensures LawfulAt(more, k) {
      if k < |h| { assert LawfulAt(h, k) && more[..k] == h[..k]; }
    }
  }

  lemma LawfulPrefix(h: seq<Step>)
    requires Lawful(h) && h != []
    ensures Lawful(h[..|h| - 1])
  {
    var rest := h[..|h| - 1];
    forall k: nat | k < |rest| ensures LawfulAt(rest, k) { assert LawfulAt(h, k) && rest[..k] == h[..k]; }
  }

  /** The request whose bytes were written wins: as long as the file of the chunk is not found
      missing, the record keeps them whatever later requests send. */
  lemma {:induction false} FirstWins(h: seq<Step>, k: nat)
    requires Lawful(h) && k < |h| && h[k].Wrote? && forall m | k < m < |h| :: h[m] != Lost(h[k].i)
    ensures h[k].i in Replay(h) && Replay(h)[h[k].i] == h[k].data
    ensures forall m | k < m < |h| :: !(h[m].Wrote? && h[m].i == h[k].i)
    decreases |h|
  {
    var n := |h| - 1;
    if k < n {
      LawfulPrefix(h);
      FirstWins(h[..n], k);
      assert LawfulAt(h, n);
      forall m | k < m < |h| ensures !(h[m].Wrote? && h[m].i == h[k].i) {
        if m < n { assert h[..n][m] == h[m]; }
      }
    }
  }

  /** Whatever is recorded was sent for that chunk by some request. */
  lemma {:induction false} RecordedWasAsked(h: seq<Step>, i: nat)
    requires Lawful(h) && i in Replay(h)
    ensures Asked(i, Replay(h)[i]) in h
    decreases |h|
  {
    var n := |h| - 1;
    assert LawfulAt(h, n);
    assert forall e | e in h[..n] :: e in h;
    if !(h[n].Wrote? && h[n].i == i) {
      LawfulPrefix(h);
      RecordedWasAsked(h[..n], i);
    }
  }

  // The requests of two runs send the same bytes for a chunk, whenever both have its length.
  ghost predicate Agree(c: Cut, h: seq<Step>, g: seq<Step>)
    requires ValidCut(c)
  {
    forall e, f | e in h && f in g && e.Asked? && f.Asked? && e.i == f.i && e.i < c.chunks &&
      |e.data| == |f.data| == Length(c, e.i) ::
      e.data == f.data
  }

  /** Runs whose requests agree chunk by chunk, in whatever order and however often they came,
      failed or were repeated after a chunk file was lost, assemble the same bytes. */
  lemma {:induction false} SameRequestsSameBytes(c: Cut, h: seq<Step>, g: seq<Step>, n: nat)
    requires ValidCut(c) && n <= c.chunks && Lawful(h) && Lawful(g) && Agree(c, h, g)
    requires Sized(c, Replay(h)) && Sized(c, Replay(g)) && forall i: nat | i < n :: i in Replay(h) && i in Replay(g)
    ensures Joined(Replay(h), n) == Joined(Replay(g), n)
  {
    hide Replay, Lawful;
    if n > 0 {
      SameRequestsSameBytes(c, h, g, n - 1);
      RecordedWasAsked(h, n - 1);
      RecordedWasAsked(g, n - 1);
    }
  }

  // ---------- the record ----------

  // The flags, the digests and the count say what is recorded.
  ghost predicate Records(c: Cut, uploaded: seq<bool>, digests: seq<Digest>, count: nat, contents: map<nat, Bytes>) {
    && |uploaded| == |digests| == c.chunks && count == Flags(uploaded)
    && forall i: nat | i < c.chunks ::
        (uploaded[i] <==> i in contents) && (uploaded[i] ==> digests[i] == Sha256(contents[i]))
  }

  ghost predicate Remembers(c: Cut, contents: map<nat, Bytes>, history: seq<Step>) {
    ValidCut(c) && Sized(c, contents) && Lawful(history) && contents == Replay(history)
  }

  lemma AddRecord(c: Cut, uploaded: seq<bool>, digests: seq<Digest>, count: nat, contents: map<nat, Bytes>, i: nat,
                  data: Bytes)
    requires Records(c, uploaded, digests, count, contents) && i < c.chunks && !uploaded[i]
    ensures Records(c, uploaded[i := true], digests[i := Sha256(data)], count + 1, contents[i := data])
  {
    hide Flags;
    FlagsUpdate(uploaded, i, true);
  }

  lemma DropRecord(c: Cut, uploaded: seq<bool>, digests: seq<Digest>, count: nat, contents: map<nat, Bytes>, i: nat)
    requires Records(c, uploaded, digests, count, contents) && i < c.chunks && uploaded[i]
    ensures count > 0 && Records(c, uploaded[i := false], digests[i := Sha256([])], count - 1, contents - {i})
  {
    hide Flags;
    FlagsUpdate(uploaded, i, false);
  }

  lemma RecordOf(c: Cut, uploaded: seq<bool>, digests: seq<Digest>, count: nat, contents: map<nat, Bytes>, i: nat)
    requires Records(c, uploaded, digests, count, contents) && i < c.chunks
    ensures |uploaded| == |digests| == c.chunks && (uploaded[i] <==> i in contents)
    ensures uploaded[i] ==> digests[i] == Sha256(contents[i])
  {
    hide Flags;
  }

  lemma NoRecord(c: Cut)
    ensures Records(c, seq(c.chunks, i => false), seq(c.chunks, i => Sha256([])), 0, map[])
  {
    hide Flags;
    NoneSet(c.chunks);
  }

  lemma AllRecorded(c: Cut, uploaded: seq<bool>, digests: seq<Digest>, count: nat, contents: map<nat, Bytes>)
    requires Records(c, uploaded, digests, count, contents)
    ensures count == c.chunks <==> forall k: nat | k < c.chunks :: k in contents
  {
    AllSet(uploaded);
  }

  lemma RememberAsked(c: Cut, contents: map<nat, Bytes>, history: seq<Step>, i: nat, data: Bytes)
    requires Remembers(c, contents, history)
    ensures Remembers(c, contents, history + [Asked(i, data)])
  {
    hide Replay, Lawful;
    LawfulOneMore(history, Asked(i, data));
  }

  lemma RememberWrote(c: Cut, contents: map<nat, Bytes>, history: seq<Step>, i: nat, data: Bytes)
    requires Remembers(c, contents, history) && Asked(i, data) in history && i !in contents && i < c.chunks
    requires |data| == Length(c, i)
    ensures Remembers(c, contents[i := data], history + [Wrote(i, data)])
  {
    hide Replay, Lawful;
    LawfulOneMore(history, Wrote(i, data));
  }

  lemma RememberLost(c: Cut, contents: map<nat, Bytes>, history: seq<Step>, i: nat)
    requires Remembers(c, contents, history) && i in contents
    ensures Remembers(c, contents - {i}, history + [Lost(i)])
  {
    hide Replay, Lawful;
    LawfulOneMore(history, Lost(i));
  }

  lemma RememberedLength(c: Cut, contents: map<nat, Bytes>, history: seq<Step>, n: nat)
    requires Remembers(c, contents, history) && n <= c.chunks && forall i: nat | i < n :: i in contents
    ensures |Joined(contents, n)| == if n == c.chunks then c.total else n * c.chunkSize
  {
    JoinedLength(c, contents, n);
  }

  lemma RememberedSize(c: Cut, contents: map<nat, Bytes>, history: seq<Step>, i: nat)
    requires Remembers(c, contents, history) && i in contents
    ensures i < c.chunks && |contents[i]| == Length(c, i)
  {
  }

  // What a request came to.
  datatype Reply = Accepted | Failed

  class Session {
    const cut: Cut
    // nobody else touches the staging directory
    const quiet: bool
    // no call fails
    const reliable: bool

    var uploaded: seq<bool>
    var digests: seq<Digest>
    var count: nat
    // the chunk files and the target as they are
    var staging: map<nat, Bytes>
    var target: Option<Bytes>
    var active: bool
    var completed: bool
    var completionFailed: bool
    // failures met so far
    var faults: nat
    // the contents the record stands for, and what happened to the chunks so far
    ghost var contents: map<nat, Bytes>
    ghost var history: seq<Step>

    ghost predicate Valid()
      reads this
    {
      && Remembers(cut, contents, history) && (quiet ==> staging == contents)
      && if completed then Finished() else target.None? && Records(cut, uploaded, digests, count, contents)
    }

    ghost predicate Finished()
      reads this
    {
      target == Some(Joined(contents, cut.chunks)) && forall i: nat | i < cut.chunks :: i in contents
    }

    constructor (cut: Cut, quiet: bool, reliable: bool)
      requires ValidCut(cut)
      ensures this.reliable == reliable
      ensures Valid() && this.cut == cut && this.quiet == quiet && contents == map[] && history == []
      ensures active && !completed && count == 0 && faults == 0
    {
      this.cut, this.quiet, this.reliable := cut, quiet, reliable;
      uploaded := seq(cut.chunks, i => false);
      digests := seq(cut.chunks, i => Sha256([]));
      count, staging, target, active, completed, completionFailed, faults := 0, map[], None, true, false, false, 0;
      contents, history := map[], [];
      NoRecord(cut);
    }

    // A call that may fail.
    method Fails() returns (bad: bool)
      modifies this`faults
      ensures faults == old(faults) + if bad then 1 else 0
      ensures reliable ==> !bad
    {
      bad := *;
      if reliable { bad := false; }
      if bad { faults := faults + 1; }
    }

    // Whatever else happens in the staging directory.
    method Meanwhile()
      requires Valid()
      modifies this`staging
      ensures Valid()
    {
      hide Remembers, Records, Joined;
      if !quiet { staging := *; }
    }

    // reconcileRecordedServiceChunk, on a chunk that is recorded
    method Reconcile(i: nat, size: nat) returns (same: bool, failed: bool)
      requires Valid() && !completed && i < cut.chunks && i in contents && size == Length(cut, i)
      modifies this`staging, this`uploaded, this`digests, this`count, this`contents, this`history, this`faults
      ensures Valid() && (same ==> !failed)
      ensures same || failed ==> contents == old(contents) && history == old(history) && uploaded == old(uploaded)
      ensures same ==> i in staging && staging[i] == contents[i]
      ensures !same && !failed ==>
                i !in staging && contents == old(contents) - {i} && history == old(history) + [Lost(i)]
      ensures !same && !failed ==> uploaded == old(uploaded)[i := false] && digests == old(digests)[i := Sha256([])]
      ensures failed && faults == old(faults) ==> i in staging && staging[i] != contents[i]
      ensures !failed ==> faults == old(faults)
      ensures reliable ==> faults == old(faults)
      ensures faults >= old(faults) && (quiet && faults == old(faults) ==> same)
    {
      hide Joined, Length, Replay, Lawful, Flags, Remembers, Records;
      Meanwhile();
      var unreadable := Fails();
      if unreadable { return false, true; }
      RecordOf(cut, uploaded, digests, count, contents, i);
      if i !in staging {
        DropRecord(cut, uploaded, digests, count, contents, i);
        RememberLost(cut, contents, history, i);
        uploaded := uploaded[i := false];
        digests := digests[i := Sha256([])];
        if count > 0 { count := count - 1; }
        contents, history := contents - {i}, history + [Lost(i)];
        return false, false;
      }
      RememberedSize(cut, contents, history, i);
      var data := staging[i];
      if |data| != size || Sha256(data) != digests[i] { return false, true; }
      return true, false;
    }

    // writeValidatedServiceChunkIn and the record of a published chunk
    method WriteChunk(i: nat, size: nat, data: Bytes) returns (published: bool, failed: bool)
      requires Valid() && !completed && i < cut.chunks && i !in contents && size == Length(cut, i)
      requires Asked(i, data) in history
      modifies this`staging, this`uploaded, this`digests, this`count, this`contents, this`history, this`faults
      ensures Valid()
      ensures !published ==> failed && contents == old(contents) && history == old(history) && count == old(count)
      ensures published ==>
                contents == old(contents)[i := data] && |data| == size && history == old(history) + [Wrote(i, data)] &&
                  count == old(count) + 1
      ensures published ==> i in staging && staging[i] == data
      ensures !failed ==> faults == old(faults)
      ensures faults >= old(faults) && (reliable ==> faults == old(faults))
      ensures (quiet && faults == old(faults) ==> published == (|data| == size) && failed == !published)
    {
      hide Joined, Length, Replay, Lawful, Flags, Remembers, Records;
      Meanwhile();
      published, failed := false, true;
      var denied := Fails();
      if denied || i in staging || |data| != size { return; }
      // publication may be reported with an error or not happen at all
      failed := Fails();
      var landed: bool := *;
      published := !failed || landed;
      if published { RecordChunk(i, data); }
    }

    method RecordChunk(i: nat, data: Bytes)
      requires Valid() && !completed && i < cut.chunks && i !in contents && |data| == Length(cut, i)
      requires Asked(i, data) in history
      modifies this`staging, this`uploaded, this`digests, this`count, this`contents, this`history
      ensures Valid() && contents == old(contents)[i := data] && history == old(history) + [Wrote(i, data)]
      ensures count == old(count) + 1
      ensures i in staging && staging[i] == data
    {
      hide Joined, Length, Replay, Lawful, Flags, Remembers, Records;
      RecordOf(cut, uploaded, digests, count, contents, i);
      AddRecord(cut, uploaded, digests, count, contents, i, data);
      RememberWrote(cut, contents, history, i, data);
      staging := staging[i := data];
      uploaded := uploaded[i := true];
      digests := digests[i := Sha256(data)];
      count := count + 1;
      contents, history := contents[i := data], history + [Wrote(i, data)];
    }

    // assembleServiceUpload: what is read must be what was recorded, so the size is right
    method Assemble() returns (published: bool, failed: bool)
      requires Valid() && !completed && count == cut.chunks
      modifies this`staging, this`target, this`faults
      ensures target == if published then Some(Joined(contents, cut.chunks)) else old(target)
      ensures published ==> |target.value| == cut.total
      ensures !published ==> failed
      ensures (forall i: nat | i < cut.chunks :: i in contents) && (quiet ==> staging == contents)
      ensures reliable ==> faults == old(faults)
      ensures faults >= old(faults) && (quiet && faults == old(faults) ==> published && !failed)
    {
      hide Length, Replay, Lawful, Flags, Remembers, Records;
      AllRecorded(cut, uploaded, digests, count, contents);
      published, failed := false, true;
      var out: Bytes := [];
      for k := 0 to cut.chunks
        invariant Valid() && out == Joined(contents, k) && faults == old(faults)
      {
        Meanwhile();
        RecordOf(cut, uploaded, digests, count, contents, k);
        RememberedSize(cut, contents, history, k);
        RememberedCut(cut, contents, history);
        ChunkIsSmall(cut, k);
        if k !in staging || |staging[k]| > MAX_CHUNK_SIZE as int { return; }
        if Sha256(staging[k]) != digests[k] { return; }
        out := out + staging[k];
      }
      RememberedLength(cut, contents, history, cut.chunks);
      if |out| != cut.total {
        assert false;
      }
      var unwritten := Fails();
      if unwritten { return; }
      // CommitNoReplace publishes bytes with the digest of `out`, or refuses
      var staged := out;
      if !quiet { staged := *; }
      if Sha256(staged) != Sha256(out) { return; }
      failed := Fails();
      var landed: bool := *;
      published := !failed || landed;
      if published { target := Some(staged); }
    }

    // The chunk, in an open session it belongs to.
    predicate Matching(number: int64, chunkSize: int64, current: int64, chunks: int64, total: int64)
      reads this
    {
      && !completed && active && Admitted(number, chunkSize, current, chunks, total)
      && chunks as int == cut.chunks && chunkSize as int == cut.chunkSize && total as int == cut.total
    }

    /** UploadFile, once its session is found.  The target is only ever the recorded
        contents in chunk order, of exactly the declared size; a recorded chunk keeps its
        contents unless its file was removed; a completed upload never writes again, and a
        session given up accepts nothing.  When nothing fails or interferes, a matching chunk
        of the declared length is recorded, and the one that makes the upload complete
        publishes it. */
    method Upload(number: int64, chunkSize: int64, current: int64, chunks: int64, total: int64, data: Bytes)
      returns (reply: Reply)
      requires Valid()
      modifies this
      ensures Valid()
      ensures old(completed) ==>
                staging == old(staging) && target == old(target) && completed && contents == old(contents)
      ensures old(completed) ==> (reply == Accepted <==> faults == old(faults) && !old(completionFailed))
      ensures !old(active) ==> contents == old(contents) && history == old(history) && target == old(target) && !active
      ensures !old(completed) && completed ==> !active
      ensures if old(Matching(number, chunkSize, current, chunks, total))
              then number >= 1 && old(history) + [Asked(number as int - 1, data)] <= history
              else history == old(history)
      ensures target.Some? ==> completed && target.value == Joined(contents, cut.chunks) && |target.value| == cut.total
      ensures target.Some? ==> InPlace(cut, contents, target.value)
      ensures reliable ==> faults == old(faults)
      ensures reply == Accepted && !completed ==> number >= 1 && number as int - 1 in contents && faults == old(faults)
      ensures OnlyChunk(number as int - 1, data)
      ensures quiet && faults == old(faults) && !old(Matching(number, chunkSize, current, chunks, total)) ==>
                contents == old(contents)
      ensures quiet && faults == old(faults) && old(Matching(number, chunkSize, current, chunks, total)) &&
                |data| == current as int ==>
                && reply == Accepted
                && contents == (if number as int - 1 in old(contents) then old(contents)
                    else old(contents)[number as int - 1 := data])
                && (completed <==> forall k: nat | k < cut.chunks :: k in contents)
    {
      hide Joined, Length, Replay, Lawful, Flags, Remembers, Records, InPlace;
      reply := Failed;
      if completed {
        RememberedLength(cut, contents, history, cut.chunks);
        TargetInPlace();
        var changed := Fails();
        return if changed || completionFailed then Failed else Accepted;
      }
      if !Matching(number, chunkSize, current, chunks, total) { return; }
      AdmittedIff(number, chunkSize, current, chunks, total);
      reply := UploadMatching(number as int - 1, current as int, data);
      if completed { TargetInPlace(); }
    }

    lemma TargetInPlace()
      requires Valid() && completed
      ensures InPlace(cut, contents, target.value)
    {
      hide Joined, Length, Replay, Lawful, Flags, Records, InPlace;
      JoinedIsInPlace(cut, contents);
    }

    // At most chunk i changed, and if it had contents before and still has others, to `data`.
    twostate predicate OnlyChunk(i: int, data: Bytes)
      reads this
    {
      && (forall k: nat | k in contents && k != i :: k in old(contents) && contents[k] == old(contents)[k])
      && (forall k: nat | k in old(contents) && k != i :: k in contents)
      && (i >= 0 && i in old(contents) && i in contents && contents[i] != old(contents)[i] ==> contents[i] == data)
    }

    method UploadMatching(i: nat, current: nat, data: Bytes) returns (reply: Reply)
      requires Valid() && !completed && active && ValidCut(cut) && i < cut.chunks && current == Length(cut, i)
      modifies this
      ensures Valid() && OnlyChunk(i, data) && old(history) + [Asked(i, data)] <= history
      ensures completed ==> |target.value| == cut.total && !active
      ensures reliable ==> faults == old(faults)
      ensures reply == Accepted && !completed ==> i in contents && faults == old(faults)
      ensures quiet && faults == old(faults) && |data| == current ==>
                && reply == Accepted
                && contents == (if i in old(contents) then old(contents) else old(contents)[i := data])
                && (completed <==> forall k: nat | k < cut.chunks :: k in contents)
    {
      hide Joined, Length, Replay, Lawful, Flags, Sized, Remembers, Records;
      reply := Failed;
      RememberAsked(cut, contents, history, i, data);
      history := history + [Asked(i, data)];
      var unresolved := Fails();
      if unresolved { return; }
      // a directory that cannot be made or pinned closes the session
      var unmade := Fails();
      if unmade {
        active := false;
        return;
      }
      var stored, late := StoreChunk(i, current, data);
      if !stored { return; }
      AllRecorded(cut, uploaded, digests, count, contents);
      if count != cut.chunks {
        return if late then Failed else Accepted;
      }
      var denied := Fails();
      if denied { return; }
      reply := Complete();
    }

    // Confirm a recorded chunk or write it.
    method StoreChunk(i: nat, current: nat, data: Bytes) returns (stored: bool, late: bool)
      requires Valid() && !completed && ValidCut(cut) && i < cut.chunks && current == Length(cut, i)
      requires Asked(i, data) in history
      modifies this`staging, this`uploaded, this`digests, this`count, this`contents, this`history, this`faults
      ensures Valid() && OnlyChunk(i, data) && old(history) <= history
      ensures stored ==> i in contents && i in staging && staging[i] == contents[i]
      ensures reliable ==> faults == old(faults)
      ensures faults >= old(faults) && (stored && !late ==> faults == old(faults))
      ensures quiet && faults == old(faults) && |data| == current ==>
                stored && !late && contents == (if i in old(contents) then old(contents) else old(contents)[i := data])
    {
      hide Joined, Length, Replay, Lawful, Flags, Sized, Remembers, Records;
      stored, late := false, false;
      RecordOf(cut, uploaded, digests, count, contents, i);
      if uploaded[i] {
        var failed;
        stored, failed := Reconcile(i, current);
        if failed { return; }
      }
      if !stored { stored, late := WriteChunk(i, current, data); }
    }

    // The end of UploadFile: publish the target, or give the session up.
    method Complete() returns (reply: Reply)
      requires Valid() && !completed && count == cut.chunks
      modifies this
      ensures Valid() && contents == old(contents) && history == old(history)
      ensures completed ==> |target.value| == cut.total
      ensures (reply == Accepted ==> completed) && !active
      ensures reliable ==> faults == old(faults)
      ensures faults >= old(faults) && (quiet && faults == old(faults) ==> completed && reply == Accepted)
    {
      hide Joined, Length, Replay, Lawful, Flags, Remembers, Records;
      var published, failed := Assemble();
      if published {
        completed, completionFailed, uploaded, digests, count := true, failed, [], [], 0;
      }
      active := false;
      reply := if failed then Failed else Accepted;
    }
  }

  lemma RememberedCut(c: Cut, contents: map<nat, Bytes>, history: seq<Step>)
    requires Remembers(c, contents, history)
    ensures ValidCut(c)
  {
  }

  /** Two completed uploads with the same cut whose requests agree chunk by chunk, whatever
      order, repetition, failure or loss of chunk files they went through, published the same
      bytes. */
  lemma CompletedUploadsAgree(a: Session, b: Session)
    requires a.Valid() && b.Valid() && a.completed && b.completed && a.cut == b.cut && ValidCut(a.cut)
    requires Agree(a.cut, a.history, b.history)
    ensures a.target == b.target && a.target.Some?
  {
    hide Joined, Replay, Lawful, Sized;
    SameRequestsSameBytes(a.cut, a.history, b.history, a.cut.chunks);
  }

  lemma ChunkIsSmall(c: Cut, i: nat)
    requires ValidCut(c) && i < c.chunks
    ensures Length(c, i) <= MAX_CHUNK_SIZE as int
  {
    if c.total > 0 && i + 1 == c.chunks { assert c.chunks * c.chunkSize == (c.chunks - 1) * c.chunkSize + c.chunkSize; }
  }
}
