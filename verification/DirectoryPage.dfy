/**
 Paging through a managed directory with bounded reads (service/system.go).
 */
module DirectoryPage {
  import opened Basics

  newtype int64 = x: int | -0x8000_0000_0000_0000 <= x < 0x8000_0000_0000_0000

  const PAGE_LIMIT: int64 := 512
  const LEGACY_SIZE: int64 := 100_000
  const SCAN_LIMIT := 10_000
  const BATCH := 256
  const MAX: int64 := 0x7fff_ffff_ffff_ffff

  // ---------- which page ----------

  datatype Plan = Plan(offset: int64, size: int64, legacy: bool)

  // planManagedDirectoryPage, in 64 bits
  function PlanPage(index: int64, size: int64): Option<Plan> {
    var legacy := index == 1 && size == LEGACY_SIZE;
    var kept := if legacy then SCAN_LIMIT as int64 else size;
    if index < 1 || kept < 1 || (!legacy && size > PAGE_LIMIT) || index - 1 > MAX / kept then None
    else
      ProductFits(index - 1, kept);
      Some(Plan((index - 1) * kept, kept, legacy))
  }

  lemma ProductFits(a: int64, b: int64)
    requires 0 <= a && 1 <= b
    ensures a <= MAX / b <==> a as int * b as int <= MAX as int
    ensures 0 <= a as int * b as int
  {
    DivBound(a as int, b as int, MAX as int);
  }

  lemma DivBound(a: int, b: int, m: int)
    requires 0 <= a && 1 <= b && 0 <= m
    ensures a <= m / b <==> a * b <= m
    ensures 0 <= a * b
  {
    var q, r := m / b, m % b;
    assert m == q * b + r && 0 <= r < b;
    if a <= q { assert a * b <= q * b; } else { assert a * b >= (q + 1) * b; }
  }

  /** A plan exists exactly for the pages a client may ask for, and never overflows: the
      legacy listing is the single first page, and every other page has at most 512 entries
      and an offset that fits. */
  lemma PlanIff(index: int64, size: int64)
    ensures var legacy := index == 1 && size == 100_000;
            var kept := if legacy then 10_000 else size as int;
            && (PlanPage(index, size).Some? <==>
                  index >= 1 && (legacy || 1 <= size <= 512) && (index as int - 1) * kept < 0x8000_0000_0000_0000)
            && (PlanPage(index, size).Some? ==>
                  var p := PlanPage(index, size).value;
                  p.offset as int == (index as int - 1) * kept && p.size as int == kept && p.legacy == legacy)
  {
    var legacy := index == 1 && size == LEGACY_SIZE;
    var kept := if legacy then SCAN_LIMIT as int64 else size;
    if index >= 1 && kept >= 1 { ProductFits(index - 1, kept); }
  }

  // ---------- reading one page ----------

  datatype Stat = Vanished | Unreadable | Info(directory: bool, regular: bool)

  // A raw entry with what the scan will find out about it; `hidden` covers the internal
  // directory and the targets of active operations.
  datatype Entry = Entry(name: string, stat: Stat, hidden: bool)

  predicate Shown(e: Entry) {
    e.stat.Info? && (e.stat.directory || e.stat.regular) && !e.hidden
  }

  function Visible(entries: seq<Entry>): seq<Entry> {
    if entries == [] then []
    else Visible(entries[..|entries| - 1]) + if Shown(entries[|entries| - 1]) then [entries[|entries| - 1]] else []
  }

  function Min(a: nat, b: nat): nat { if a < b then a else b }

  // The simple slice.
  function Slice(v: seq<Entry>, offset: nat, size: nat): seq<Entry> {
    if offset >= |v| then [] else v[offset..Min(|v|, offset + size)]
  }

  lemma {:induction false} VisibleFilters(entries: seq<Entry>)
    ensures Filters(entries, Shown, Visible(entries))
  {
    hide Filters;
    if entries == [] {
      FiltersNothing(Shown);
    } else {
      var n := |entries| - 1;
      VisibleFilters(entries[..n]);
      FiltersOneMore(entries[..n], Shown, Visible(entries[..n]), entries[n]);
      assert entries == entries[..n] + [entries[n]];
      VisibleOneMore(entries, n);
      assert entries[..n + 1] == entries;
    }
  }

  // The page holds the entries of v from position `offset` on, `size` of them or as many as
  // there are.
  ghost predicate IsPage(v: seq<Entry>, offset: nat, size: nat, page: seq<Entry>) {
    && |page| == (if offset >= |v| then 0 else Min(size, |v| - offset))
    && forall k | 0 <= k < |page| :: page[k] == v[offset + k]
  }

  datatype Outcome = Page(page: seq<Entry>, total: nat) | ScanLimit | Failed

  lemma VisibleOneMore(entries: seq<Entry>, n: nat)
    requires n < |entries|
    ensures Visible(entries[..n + 1]) == if Shown(entries[n]) then Visible(entries[..n]) + [entries[n]]
              else Visible(entries[..n])
  {
    assert entries[..n + 1][..n] == entries[..n];
  }

  lemma SliceGrows(v: seq<Entry>, e: Entry, offset: nat, size: nat)
    ensures Slice(v + [e], offset, size) ==
              if |v| < offset || |Slice(v, offset, size)| >= size then Slice(v, offset, size)
                else Slice(v, offset, size) + [e]
  {
  }

  lemma NothingVisible(entries: seq<Entry>, offset: nat, size: nat)
    ensures Visible(entries[..0]) == [] && Slice([], offset, size) == []
  {
  }

  lemma SliceIsPage(v: seq<Entry>, offset: nat, size: nat)
    ensures IsPage(v, offset, size, Slice(v, offset, size))
  {
  }

  // How the directory and the request behave: how many entries the n-th read hands out and
  // whether it reports the end with the last of them or breaks, and when the request is
  // cancelled, before the n-th read or the k-th entry.
  datatype World = World(some: nat -> nat, ends: nat -> bool, breaks: nat -> bool, cancelled: nat -> bool,
    stopped: nat -> bool)

  // Every read makes progress and nothing is cancelled.
  ghost predicate Smooth(w: World) {
    && (forall n: nat :: w.some(n) >= 1 && !w.breaks(n) && !w.cancelled(n))
    && (forall k: nat :: !w.stopped(k))
  }

  // One batch: entries [from, to) are examined one by one.
  method ScanBatch(w: World, entries: seq<Entry>, from: nat, to: nat, offset: nat, size: nat, page0: seq<Entry>,
                   total0: nat)
    returns (ok: bool, page: seq<Entry>, total: nat)
    requires from <= to <= |entries| && size >= 1
    requires total0 == |Visible(entries[..from])| && page0 == Slice(Visible(entries[..from]), offset, size)
    ensures ok ==> total == |Visible(entries[..to])| && page == Slice(Visible(entries[..to]), offset, size)
    ensures ok <==> forall k: nat | from <= k < to :: !entries[k].stat.Unreadable? && !w.stopped(k)
  {
    hide Visible, Slice;
    ok, page, total := false, page0, total0;
    for k := from to to
      invariant forall m: nat | from <= m < k :: !entries[m].stat.Unreadable? && !w.stopped(m)
      invariant total == |Visible(entries[..k])| && page == Slice(Visible(entries[..k]), offset, size)
    {
      if w.stopped(k) { return; }
      var e := entries[k];
      VisibleOneMore(entries, k);
      if e.stat.Vanished? { continue; }
      if e.stat.Unreadable? { return; }
      if !(e.stat.directory || e.stat.regular) || e.hidden { continue; }
      SliceGrows(Visible(entries[..k]), e, offset, size);
      var position := total;
      total := total + 1;
      if position < offset || |page| >= size { continue; }
      page := page + [e];
    }
    ok := true;
  }

  /** readManagedDirectoryPage: however the directory hands out its entries, a page is the
      slice of the visible ones and the total counts them all; a directory of more than
      10,000 raw entries is refused, one of exactly that many is not refused for its size; and
      when the reads make progress, nothing is cancelled and every entry can be examined, it
      answers one way or the other. */
  method ReadPage(w: World, entries: seq<Entry>, offset: nat, size: nat) returns (r: Outcome, calls: nat)
    requires size >= 1
    ensures r.Page? ==> r.total == |Visible(entries)| && r.page == Slice(Visible(entries), offset, size)
    ensures r.Page? ==>
              exists v :: Filters(entries, Shown, v) && r.total == |v| && IsPage(v, offset, size, r.page)
    ensures r.Page? ==>
              |entries| <= 10_000 && forall k: nat | k < |entries| :: !entries[k].stat.Unreadable? && !w.stopped(k)
    ensures r.Page? ==>
              calls >= 1 && |entries| <= calls * BATCH && forall n: nat | n < calls :: !w.cancelled(n) && !w.breaks(n)
    ensures r == ScanLimit ==> |entries| > 10_000
    ensures Smooth(w) && (forall k | 0 <= k < |entries| :: !entries[k].stat.Unreadable?) ==>
              (if |entries| <= 10_000 then r.Page? else r == ScanLimit)
  {
    hide Visible, Slice, Filters, Shown, IsPage;
    r, calls := Failed, 0;
    var page: seq<Entry>, total, scanned := [], 0, 0;
    NothingVisible(entries, offset, size);
    while true
      invariant scanned <= |entries| && scanned <= SCAN_LIMIT
      invariant total == |Visible(entries[..scanned])| && page == Slice(Visible(entries[..scanned]), offset, size)
      invariant forall k: nat | k < scanned :: !entries[k].stat.Unreadable? && !w.stopped(k)
      invariant scanned <= calls * BATCH && forall n: nat | n < calls :: !w.cancelled(n) && !w.breaks(n)
      decreases |entries| - scanned
    {
      var call := calls;
      calls := calls + 1;
      if w.cancelled(call) { return; }
      var remaining := SCAN_LIMIT - scanned;
      var asked := if remaining < BATCH then remaining + 1 else BATCH;
      // ReadDir hands out some of what is left; nothing, once nothing is left, with the end
      var got := Min(Min(w.some(call), asked), |entries| - scanned);
      var ended := scanned + got == |entries| && (got == 0 || w.ends(call));
      if got > remaining { return ScanLimit, calls; }
      if got == 0 && !ended && !w.breaks(call) { return; }
      var ok;
      ok, page, total := ScanBatch(w, entries, scanned, scanned + got, offset, size, page, total);
      if !ok { return; }
      scanned := scanned + got;
      if w.breaks(call) { return; }
      if ended {
        assert entries[..scanned] == entries;
        VisibleFilters(entries);
        SliceIsPage(Visible(entries), offset, size);
        return Page(page, total), calls;
      }
    }
  }

  // ---------- consecutive pages ----------

  // The first n pages of the given size, one after the other.
  function Pages(v: seq<Entry>, size: nat, n: nat): seq<Entry> {
    if n == 0 then [] else Pages(v, size, n - 1) + Slice(v, (n - 1) * size, size)
  }

  /** Over an unchanged directory consecutive pages make up the whole list, each entry once. */
  lemma {:induction false} PagesConcatenate(v: seq<Entry>, size: nat, n: nat)
    requires size >= 1
    ensures Pages(v, size, n) == v[..Min(|v|, n * size)]
    ensures n * size >= |v| ==> Pages(v, size, n) == v
  {
    if n > 0 {
      PagesConcatenate(v, size, n - 1);
      var before := (n - 1) * size;
      assert n * size == before + size;
      if before < |v| {
        assert v[..before] + v[before..Min(|v|, before + size)] == v[..Min(|v|, n * size)];
      }
    }
    if n * size >= |v| { assert v[..|v|] == v; }
  }
}
