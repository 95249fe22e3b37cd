/**
 The managed Samba configuration files, and rendering the fragment from database rows
 (service/shares.go).
 */
module SambaRender {
  import opened Basics
  import opened LegacyFragment

  const MAIN_MARKER := "# ReCasaOS managed Samba main config v1\n"
  const PRIVATE := 0x180 // 0600

  datatype File = Missing | File(data: string, mode: nat)

  function Marker(): string { "# ReCasaOS managed Samba shares v1\n" }

  // What the configured roots and the name rules say: `canonical` gives the share name of a
  // path that is its own canonical form and openable below a managed root, `key` the folded
  // name two shares may not have in common, `userOk` whether an account name is well formed.
  datatype Roots = Roots(canonical: string -> Option<string>, key: string -> Option<string>, userOk: string -> bool)

  function ShareLines(row: Share): seq<string> {
    ["", "[" + row.name + "]", "comment = ReCasaOS managed share", "public = No", "path = \"" + row.path + "\"",
     "browseable = Yes", "read only = No", "guest ok = No", "create mask = 0660", "directory mask = 0770",
     "follow symlinks = no", "wide links = no"]
    + (if row.username == "" then [] else ["valid users = " + row.username, "force user = " + row.username])
    + [""]
  }

  function Lines(lines: seq<string>): string {
    if lines == [] then "" else Lines(lines[..|lines| - 1]) + lines[|lines| - 1] + "\n"
  }

  function ShareText(row: Share): string { Lines(ShareLines(row)) }

  function Body(rows: seq<Share>): string {
    if rows == [] then "" else Body(rows[..|rows| - 1]) + ShareText(rows[|rows| - 1])
  }

  predicate RowOk(roots: Roots, row: Share) {
    && !row.anonymous && roots.canonical(row.path) == Some(row.name) && roots.key(row.name).Some?
    && (row.username == "" || roots.userOk(row.username))
  }

  predicate Renderable(roots: Roots, rows: seq<Share>) {
    && |rows| <= 256
    && (forall i | 0 <= i < |rows| :: RowOk(roots, rows[i]))
    && (forall i, k | 0 <= i < k < |rows| ::
          rows[i].path != rows[k].path && roots.key(rows[i].name) != roots.key(rows[k].name))
  }

  function Render(roots: Roots, rows: seq<Share>): Option<string> {
    if Renderable(roots, rows) && |Marker() + Body(rows)| <= 4 * 1024 * 1024 then Some(Marker() + Body(rows)) else None
  }

  // ---------- what the text says ----------

  // The text is the parts one after the other.
  ghost predicate InOrder(text: string, parts: seq<string>) {
    exists cuts: seq<nat> :: CutInto(text, parts, cuts)
  }

  ghost predicate CutInto(text: string, parts: seq<string>, cuts: seq<nat>) {
    && |cuts| == |parts| + 1 && cuts[0] == 0 && cuts[|parts|] == |text|
    && forall k | 0 <= k < |parts| :: Piece(text, cuts, k, parts[k])
  }

  ghost predicate Piece(text: string, cuts: seq<nat>, k: nat, part: string)
    requires k + 1 < |cuts|
  {
    cuts[k] <= cuts[k + 1] <= |text| && text[cuts[k]..cuts[k + 1]] == part
  }

  // The managed fragment that holds exactly these shares, in this order.
  ghost predicate IsFragment(text: string, rows: seq<Share>) {
    InOrder(text, ["# ReCasaOS managed Samba shares v1\n"] + Texts(rows))
  }

  ghost function Texts(rows: seq<Share>): seq<string> {
    seq(|rows|, i requires 0 <= i < |rows| => ShareText(rows[i]))
  }

  lemma OneMorePart(text: string, parts: seq<string>, part: string)
    requires InOrder(text, parts)
    ensures InOrder(text + part, parts + [part])
  {
    var cuts: seq<nat> :| CutInto(text, parts, cuts);
    var more: seq<nat> := cuts + [|text| + |part|];
    forall k | 0 <= k < |parts| + 1 ensures Piece(text + part, more, k, (parts + [part])[k]) {
      if k < |parts| {
        assert Piece(text, cuts, k, parts[k]);
        assert (text + part)[cuts[k]..cuts[k + 1]] == text[cuts[k]..cuts[k + 1]];
      }
    }
    assert CutInto(text + part, parts + [part], more);
  }

  lemma {:induction false} BodyInOrder(head: string, rows: seq<Share>)
    ensures InOrder(head + Body(rows), [head] + Texts(rows))
  {
    hide ShareText;
    if rows == [] {
      assert CutInto(head, [head], [0, |head|]);
      assert head + Body(rows) == head && [head] + Texts(rows) == [head];
    } else {
      var n := |rows| - 1;
      BodyInOrder(head, rows[..n]);
      OneMorePart(head + Body(rows[..n]), [head] + Texts(rows[..n]), ShareText(rows[n]));
      assert head + Body(rows) == head + Body(rows[..n]) + ShareText(rows[n]);
      assert [head] + Texts(rows) == [head] + Texts(rows[..n]) + [ShareText(rows[n])];
    }
  }

  /** A rendering is the fragment with exactly the rows, in order. */
  lemma RenderedIsFragment(roots: Roots, rows: seq<Share>)
    requires Render(roots, rows).Some?
    ensures IsFragment(Render(roots, rows).value, rows)
  {
    hide Body, Texts, InOrder, ShareText;
    BodyInOrder(Marker(), rows);
  }

  lemma {:induction false} LineInside(lines: seq<string>, k: nat)
    requires k < |lines|
    ensures HasLine(Lines(lines), lines[k])
    ensures Lines(lines) != "" && Lines(lines)[|Lines(lines)| - 1] == '\n'
    decreases |lines|
  {
    var n := |lines| - 1;
    var before := Lines(lines[..n]);
    if n > 0 { LineInside(lines[..n], if k < n then k else 0); }
    if k == n {
      assert Lines(lines) == before + lines[n] + "\n" + "";
    } else {
      var a, b :| before == a + lines[k] + "\n" + b && (a == "" || a[|a| - 1] == '\n');
      assert Lines(lines) == a + lines[k] + "\n" + (b + lines[n] + "\n");
    }
  }

  /** A rendered share is the directory under its name, closed to guests, and, if it has an
      account, open to that account alone. */
  lemma ShareSays(row: Share)
    ensures HasLine(ShareText(row), "[" + row.name + "]")
    ensures HasLine(ShareText(row), "path = \"" + row.path + "\"")
    ensures HasLine(ShareText(row), "public = No") && HasLine(ShareText(row), "guest ok = No")
    ensures row.username != "" ==>
              HasLine(ShareText(row), "valid users = " + row.username) &&
              HasLine(ShareText(row), "force user = " + row.username)
  {
    hide Lines, HasLine;
    var lines := ShareLines(row);
    LineInside(lines, 1);
    LineInside(lines, 3);
    LineInside(lines, 4);
    LineInside(lines, 7);
    if row.username != "" {
      LineInside(lines, 12);
      LineInside(lines, 13);
    }
  }

  ghost function PathSet(rows: seq<Share>): set<string> {
    if rows == [] then {} else PathSet(rows[..|rows| - 1]) + {rows[|rows| - 1].path}
  }

  ghost function KeySet(roots: Roots, rows: seq<Share>): set<Option<string>> {
    if rows == [] then {} else KeySet(roots, rows[..|rows| - 1]) + {roots.key(rows[|rows| - 1].name)}
  }

  // The new row clashes with none of the others.
  ghost predicate Apart(roots: Roots, rows: seq<Share>, row: Share) {
    forall i | 0 <= i < |rows| :: rows[i].path != row.path && roots.key(rows[i].name) != roots.key(row.name)
  }

  lemma RenderableOneMore(roots: Roots, rows: seq<Share>, row: Share)
    requires |rows| < MAX_SHARES && Renderable(roots, rows)
    ensures Renderable(roots, rows + [row]) <==> RowOk(roots, row) && Apart(roots, rows, row)
  {
    hide RowOk;
    var all := rows + [row];
    assert all[|rows|] == row && forall i | 0 <= i < |rows| :: all[i] == rows[i];
    if Renderable(roots, all) {
      forall i | 0 <= i < |rows| ensures rows[i].path != row.path && roots.key(rows[i].name) != roots.key(row.name) {
        assert all[i].path != all[|rows|].path;
      }
    }
  }

  lemma {:induction false} ApartMeansNew(roots: Roots, rows: seq<Share>, row: Share)
    ensures Apart(roots, rows, row) <==> row.path !in PathSet(rows) && roots.key(row.name) !in KeySet(roots, rows)
  {
    if rows != [] {
      var rest, last := rows[..|rows| - 1], rows[|rows| - 1];
      ApartMeansNew(roots, rest, row);
      assert Apart(roots, rows, row) <==>
        Apart(roots, rest, row) && last.path != row.path && roots.key(last.name) != roots.key(row.name) by {
        assert forall i | 0 <= i < |rest| :: rest[i] == rows[i];
      }
    }
  }

  lemma OneMore(roots: Roots, rows: seq<Share>, row: Share)
    requires |rows| < MAX_SHARES && Renderable(roots, rows)
    ensures Renderable(roots, rows + [row]) <==>
              RowOk(roots, row) && row.path !in PathSet(rows) && roots.key(row.name) !in KeySet(roots, rows)
    ensures PathSet(rows + [row]) == PathSet(rows) + {row.path}
    ensures KeySet(roots, rows + [row]) == KeySet(roots, rows) + {roots.key(row.name)}
    ensures Marker() + Body(rows + [row]) == Marker() + Body(rows) + ShareText(row)
  {
    hide Renderable, Apart, Marker, ShareText, RowOk;
    assert (rows + [row])[..|rows|] == rows;
    RenderableOneMore(roots, rows, row);
    ApartMeansNew(roots, rows, row);
  }

  lemma RenderablePrefix(roots: Roots, rows: seq<Share>, n: nat)
    requires n <= |rows| && Renderable(roots, rows)
    ensures Renderable(roots, rows[..n])
  {
  }

  lemma NoRows(roots: Roots)
    ensures Renderable(roots, []) && Marker() + Body([]) == Marker() && PathSet([]) == {} && KeySet(roots, []) == {}
  {
    hide Marker;
  }

  /** renderSambaSharesConfig: the loop keeps the paths and names it has seen. */
  method RenderShares(roots: Roots, rows: seq<Share>) returns (r: Option<string>)
    ensures r == Render(roots, rows)
  {
    hide ShareText, Renderable, Body, Marker, PathSet, KeySet, RowOk;
    if |rows| > MAX_SHARES {
      RenderableBound(roots, rows);
      return None;
    }
    var seenPaths: set<string>, seenKeys: set<Option<string>> := {}, {};
    var text := Marker();
    NoRows(roots);
    for i := 0 to |rows|
      invariant Renderable(roots, rows[..i])
      invariant seenPaths == PathSet(rows[..i]) && seenKeys == KeySet(roots, rows[..i])
      invariant text == Marker() + Body(rows[..i])
    {
      var row := rows[i];
      assert rows[..i + 1] == rows[..i] + [row];
      OneMore(roots, rows[..i], row);
      if !RowOk(roots, row) || row.path in seenPaths || roots.key(row.name) in seenKeys {
        if Renderable(roots, rows) { RenderablePrefix(roots, rows, i + 1); }
        return None;
      }
      seenPaths := seenPaths + {row.path};
      seenKeys := seenKeys + {roots.key(row.name)};
      text := text + ShareText(row);
    }
    assert rows[..|rows|] == rows;
    r := if |text| <= MAX_BYTES then Some(text) else None;
  }

  lemma RenderableBound(roots: Roots, rows: seq<Share>)
    requires |rows| > MAX_SHARES
    ensures !Renderable(roots, rows)
  {
  }
}
