/**
 Recognising the Samba fragment an old CasaOS wrote (service/samba_legacy_config.go): the
 bytes must be the stanzas of exactly the database rows, in any order.

 Go strings are byte strings; they are modelled as strings whose characters are bytes.
 */
module LegacyFragment {
  import opened Basics

  const MAX_SHARES := 256
  const MAX_BYTES := 4 * 1024 * 1024
  const MAX_PATH := 4096

  datatype Share = Share(id: nat, path: string, name: string, anonymous: bool, username: string)

  // ---------- stanzas ----------

  // filepath.Base
  function Base(path: string): string
    decreases |path|
  {
    if path == "" then "."
    else if path == "/" then "/"
    else if path[|path| - 1] == '/' then Base(path[..|path| - 1])
    else LastComponent(path)
  }

  function LastComponent(path: string): string {
    if path == "" || path[|path| - 1] == '/' then "" else LastComponent(path[..|path| - 1]) + [path[|path| - 1]]
  }

  // What follows the path line.
  function Tail(): string {
    "browseable = Yes" + "\n" + (
    "read only = No" + "\n" + (
    "guest ok = Yes" + "\n" + (
    "create mask = 0777" + "\n" + (
    "directory mask = 0777" + "\n" + (
    "force user = root" + "\n" + "\n")))))
  }

  // legacySambaShareStanza, line by line
  function Stanza(path: string): string {
    StanzaOf(Base(path), path)
  }

  function StanzaOf(name: string, path: string): string {
    "" + "\n" + (
    ("[" + name + "]") + "\n" + (
    ("comment = CasaOS share " + name) + "\n" + (
    "public = Yes" + "\n" + (
    ("path = " + path) + "\n" + Tail()))))
  }

  /** The share of a path is named after its last component. */
  lemma BaseIsLast(dir: string, name: string)
    requires name != "" && '/' !in name
    ensures Base(dir + "/" + name) == name
  {
    LastOfJoined(dir, name);
  }

  /** What an old stanza says: the directory under its name, open to guests, as root. */
  lemma StanzaSays(path: string)
    ensures HasLine(Stanza(path), "[" + Base(path) + "]") && HasLine(Stanza(path), "path = " + path)
    ensures HasLine(Stanza(path), "public = Yes") && HasLine(Stanza(path), "guest ok = Yes")
    ensures HasLine(Stanza(path), "force user = root")
  {
    hide HasLine, Base;
    var name := Base(path);
    var p := ("path = " + path) + "\n" + Tail();
    var q := "public = Yes" + "\n" + p;
    var c := ("comment = CasaOS share " + name) + "\n" + q;
    var h := ("[" + name + "]") + "\n" + c;
    TailSays();
    LineFirst("path = " + path, Tail());
    LineFirst("public = Yes", p);
    LineFirst("[" + name + "]", c);
    forall line | HasLine(Tail(), line) ensures HasLine(p, line) { LineLater("path = " + path, Tail(), line); }
    forall line | HasLine(p, line) ensures HasLine(q, line) { LineLater("public = Yes", p, line); }
    forall line | HasLine(q, line) ensures HasLine(h, line) {
      LineLater("comment = CasaOS share " + name, q, line);
      LineLater("[" + name + "]", c, line);
    }
    forall line | HasLine(h, line) ensures HasLine(Stanza(path), line) { LineLater("", h, line); }
  }

  lemma TailSays()
    ensures HasLine(Tail(), "guest ok = Yes") && HasLine(Tail(), "force user = root")
  {
    hide HasLine;
    var f := "force user = root" + "\n" + "\n";
    var d := "directory mask = 0777" + "\n" + f;
    var c := "create mask = 0777" + "\n" + d;
    var g := "guest ok = Yes" + "\n" + c;
    var r := "read only = No" + "\n" + g;
    LineFirst("force user = root", "\n");
    LineLater("directory mask = 0777", f, "force user = root");
    LineLater("create mask = 0777", d, "force user = root");
    LineLater("guest ok = Yes", c, "force user = root");
    LineFirst("guest ok = Yes", c);
    forall line | HasLine(g, line) ensures HasLine(Tail(), line) {
      LineLater("read only = No", g, line);
      LineLater("browseable = Yes", r, line);
    }
  }

  // unicode/utf8.ValidString, on bytes
  predicate ValidUtf8(s: string)
    decreases |s|
  {
    if s == "" then true
    else if s[0] as int < 0x80 then ValidUtf8(s[1..])
    else if 0xC2 <= s[0] as int <= 0xDF then |s| >= 2 && Continues(s[1], 0x80, 0xBF) && ValidUtf8(s[2..])
    else if 0xE0 <= s[0] as int <= 0xEF then
      && |s| >= 3
      && Continues(s[1], if s[0] as int == 0xE0 then 0xA0 else 0x80, if s[0] as int == 0xED then 0x9F else 0xBF)
      && Continues(s[2], 0x80, 0xBF) && ValidUtf8(s[3..])
    else if 0xF0 <= s[0] as int <= 0xF4 then
      && |s| >= 4
      && Continues(s[1], if s[0] as int == 0xF0 then 0x90 else 0x80, if s[0] as int == 0xF4 then 0x8F else 0xBF)
      && Continues(s[2], 0x80, 0xBF) && Continues(s[3], 0x80, 0xBF) && ValidUtf8(s[4..])
    else false
  }

  predicate Continues(c: char, lo: int, hi: int) {
    lo <= c as int <= hi
  }

  // The encoding of section 3 of RFC 3629: a Unicode scalar value in one to four bytes.
  predicate Scalar(c: int) {
    0 <= c < 0xD800 || 0xE000 <= c < 0x11_0000
  }

  function Encoded(c: int): string
    requires Scalar(c)
  {
    if c < 0x80 then [c as char]
    else if c < 0x800 then [(0xC0 + c / 64) as char, (0x80 + c % 64) as char]
    else if c < 0x1_0000 then [(0xE0 + c / 4096) as char, (0x80 + c / 64 % 64) as char, (0x80 + c % 64) as char]
    else
      [(0xF0 + c / 262144) as char, (0x80 + c / 4096 % 64) as char, (0x80 + c / 64 % 64) as char,
        (0x80 + c % 64) as char]
  }

  ghost predicate Scalars(cs: seq<int>) {
    forall i | 0 <= i < |cs| :: Scalar(cs[i])
  }

  ghost function EncodedAll(cs: seq<int>): string
    requires Scalars(cs)
  {
    if cs == [] then "" else Encoded(cs[0]) + EncodedAll(cs[1..])
  }

  lemma EncodedIsValid(c: int, rest: string)
    requires Scalar(c)
    ensures ValidUtf8(Encoded(c) + rest) <==> ValidUtf8(rest)
  {
    hide ValidUtf8;
    var e := Encoded(c);
    assert (e + rest)[|e|..] == rest && forall i | 0 <= i < |e| :: (e + rest)[i] == e[i];
    Unrolled(e + rest, |e|);
    if 0x800 <= c < 0x1_0000 { Digits(c); }
    if c >= 0x1_0000 { Digits(c); }
  }

  // The last three digits of c to the base 64, and what is above them.
  lemma Digits(c: int)
    requires 0 <= c
    ensures c == c / 262144 * 262144 + c / 4096 % 64 * 4096 + c / 64 % 64 * 64 + c % 64
    ensures c < 0x1_0000 ==> c / 4096 < 16 && c == c / 4096 * 4096 + c / 64 % 64 * 64 + c % 64
    ensures 0 <= c / 4096 % 64 < 64 && 0 <= c / 64 % 64 < 64 && 0 <= c % 64 < 64
  {
    Shifted(c);
  }

  // One step of the check, on a character of n bytes.
  ghost predicate ValidStart(s: string, n: nat) {
    && |s| >= n
    && match n
       case 1 => s[0] as int < 0x80
       case 2 => 0xC2 <= s[0] as int <= 0xDF && Continues(s[1], 0x80, 0xBF)
       case 3 =>
         && 0xE0 <= s[0] as int <= 0xEF && Continues(s[2], 0x80, 0xBF)
         && Continues(s[1], if s[0] as int == 0xE0 then 0xA0 else 0x80, if s[0] as int == 0xED then 0x9F else 0xBF)
       case 4 =>
         && 0xF0 <= s[0] as int <= 0xF4 && Continues(s[2], 0x80, 0xBF) && Continues(s[3], 0x80, 0xBF)
         && Continues(s[1], if s[0] as int == 0xF0 then 0x90 else 0x80, if s[0] as int == 0xF4 then 0x8F else 0xBF)
       case _ => false
  }

  lemma Unrolled(s: string, n: nat)
    requires ValidStart(s, n)
    ensures ValidUtf8(s) <==> ValidUtf8(s[n..])
  {
  }

  lemma Starts(s: string) returns (n: nat)
    requires s != "" && ValidUtf8(s)
    ensures ValidStart(s, n) && ValidUtf8(s[n..])
  {
    var a := s[0] as int;
    n := if a < 0x80 then 1 else if a <= 0xDF then 2 else if a <= 0xEF then 3 else 4;
  }

  // The scalar value that valid text starts with.
  lemma FirstScalar(s: string) returns (c: int)
    requires s != "" && ValidUtf8(s)
    ensures Scalar(c) && Encoded(c) <= s && ValidUtf8(s[|Encoded(c)|..])
  {
    hide ValidUtf8;
    var n := Starts(s);
    if n == 1 {
      c := s[0] as int;
    } else if n == 2 {
      c := Two(s);
    } else if n == 3 {
      c := Three(s);
    } else {
      c := Four(s);
    }
    assert Encoded(c) == s[..n];
  }

  lemma Two(s: string) returns (c: int)
    requires ValidStart(s, 2)
    ensures Scalar(c) && |Encoded(c)| == 2 && Encoded(c)[0] == s[0] && Encoded(c)[1] == s[1]
  {
    var a, b := s[0] as int - 0xC0, s[1] as int - 0x80;
    c := a * 64 + b;
    assert c / 64 == a && c % 64 == b;
  }

  lemma Three(s: string) returns (c: int)
    requires ValidStart(s, 3)
    ensures Scalar(c) && |Encoded(c)| == 3 && Encoded(c)[0] == s[0] && Encoded(c)[1] == s[1] && Encoded(c)[2] == s[2]
  {
    var a, b, d := s[0] as int - 0xE0, s[1] as int - 0x80, s[2] as int - 0x80;
    c := a * 4096 + b * 64 + d;
    FromDigits(0, a, b, d);
  }

  lemma Four(s: string) returns (c: int)
    requires ValidStart(s, 4)
    ensures Scalar(c) && |Encoded(c)| == 4 && Encoded(c)[0] == s[0] && Encoded(c)[1] == s[1]
    ensures Encoded(c)[2] == s[2] && Encoded(c)[3] == s[3]
  {
    var a, b, d, e := s[0] as int - 0xF0, s[1] as int - 0x80, s[2] as int - 0x80, s[3] as int - 0x80;
    c := a * 262144 + b * 4096 + d * 64 + e;
    FromDigits(a, b, d, e);
  }

  lemma FromDigits(a: int, b: int, d: int, e: int)
    requires 0 <= a && 0 <= b < 64 && 0 <= d < 64 && 0 <= e < 64
    ensures var c := a * 262144 + b * 4096 + d * 64 + e;
            c / 262144 == a && c / 4096 % 64 == b && c / 64 % 64 == d && c % 64 == e && (a == 0 ==> c / 4096 == b)
  {
    var q := a * 64 + b;
    var r := q * 64 + d;
    LastDigit(a, b);
    LastDigit(q, d);
    LastDigit(r, e);
    Shifted(r * 64 + e);
  }

  lemma LastDigit(q: int, r: int)
    requires 0 <= q && 0 <= r < 64
    ensures (q * 64 + r) / 64 == q && (q * 64 + r) % 64 == r
  {
  }

  lemma Shifted(c: int)
    requires c >= 0
    ensures c / 4096 == c / 64 / 64 && c / 262144 == c / 64 / 64 / 64
  {
  }

  /** The byte-wise check accepts exactly the texts that encode some scalar values. */
  lemma {:induction false} ValidUtf8Iff(s: string)
    ensures ValidUtf8(s) <==> exists cs :: Scalars(cs) && EncodedAll(cs) == s
  {
    if ValidUtf8(s) {
      var cs := Decoded(s);
    }
    if cs :| Scalars(cs) && EncodedAll(cs) == s { AllEncodedIsValid(cs); }
  }

  lemma {:induction false} Decoded(s: string) returns (cs: seq<int>)
    requires ValidUtf8(s)
    ensures Scalars(cs) && EncodedAll(cs) == s
    decreases |s|
  {
    if s == "" {
      cs := [];
    } else {
      var c := FirstScalar(s);
      var rest := Decoded(s[|Encoded(c)|..]);
      cs := [c] + rest;
      assert cs[1..] == rest;
    }
  }

  lemma {:induction false} AllEncodedIsValid(cs: seq<int>)
    requires Scalars(cs)
    ensures ValidUtf8(EncodedAll(cs))
    decreases |cs|
  {
    if cs != [] {
      AllEncodedIsValid(cs[1..]);
      EncodedIsValid(cs[0], EncodedAll(cs[1..]));
    }
  }

  predicate ValidPath(p: string) {
    p != "" && |p| <= MAX_PATH && ValidUtf8(p)
  }

  // ---------- what is accepted ----------

  function Stanzas(shares: seq<Share>): (r: seq<string>)
    ensures |r| == |shares| && forall i | 0 <= i < |r| :: r[i] == Stanza(shares[i].path)
  {
    seq(|shares|, i requires 0 <= i < |shares| => Stanza(shares[i].path))
  }

  function Concat(parts: seq<string>): string {
    if parts == [] then "" else parts[0] + Concat(parts[1..])
  }

  ghost predicate OnlyPrefix(m: multiset<string>, data: string, s: string) {
    s in m && s != "" && s <= data && forall t | t in m && t <= data :: t == s
  }

  // The data is consumed stanza by stanza, never with a choice, until nothing is left.
  ghost predicate Consumed(m: multiset<string>, data: string)
    decreases |data|
  {
    if data == "" then m == multiset{}
    else exists s :: OnlyPrefix(m, data, s) && Consumed(m - multiset{s}, data[|s|..])
  }

  ghost predicate Accepted(shares: seq<Share>, data: string) {
    && |shares| <= 256 && |data| <= 4 * 1024 * 1024
    && (forall i | 0 <= i < |shares| :: ValidPath(shares[i].path))
    && |data| == |Concat(Stanzas(shares))|
    && Consumed(multiset(Stanzas(shares)), data)
  }

  // ---------- the matcher ----------

  ghost predicate Counts(counts: map<string, nat>, m: multiset<string>) {
    forall s :: m[s] == if s in counts then counts[s] else 0
  }

  // One pass over the map, in whatever order its keys come.
  method NextStanza(counts: map<string, nat>, rest: string, ghost m: multiset<string>)
    returns (found: string, ambiguous: bool)
    requires Counts(counts, m) && "" !in counts
    ensures !ambiguous && found != "" <==> exists s :: OnlyPrefix(m, rest, s)
    ensures !ambiguous && found != "" ==> OnlyPrefix(m, rest, found)
    ensures !ambiguous && found == "" ==> forall s | s in m :: !(s <= rest)
  {
    found, ambiguous := "", false;
    var keys := counts.Keys;
    while keys != {}
      invariant keys <= counts.Keys
      invariant found != "" ==> found in m && found <= rest && found !in keys
      invariant forall s | s in counts && s !in keys && counts[s] > 0 && s <= rest :: s == found
    {
      var s :| s in keys;
      keys := keys - {s};
      if counts[s] == 0 || !(s <= rest) { continue; }
      if found != "" && found != s {
        ambiguous := true;
        assert found in m && s in m && found <= rest && s <= rest;
        return;
      }
      found := s;
    }
    assert forall s | s in m && s <= rest :: s == found;
    if found != "" { assert OnlyPrefix(m, rest, found); }
  }

  // How often each stanza is expected, and how many bytes they take.
  method CountStanzas(shares: seq<Share>) returns (valid: bool, counts: map<string, nat>, expected: nat)
    ensures valid <==> forall i | 0 <= i < |shares| :: ValidPath(shares[i].path)
    ensures valid ==>
              "" !in counts && Counts(counts, multiset(Stanzas(shares))) && expected == |Concat(Stanzas(shares))|
  {
    hide Stanza, ValidPath, Stanzas, Concat;
    valid, counts, expected := true, map[], 0;
    NoStanzas(shares);
    for i := 0 to |shares|
      invariant forall k | 0 <= k < i :: ValidPath(shares[k].path)
      invariant "" !in counts && Counts(counts, multiset(Stanzas(shares[..i])))
      invariant expected == |Concat(Stanzas(shares[..i]))|
    {
      if !ValidPath(shares[i].path) { return false, counts, expected; }
      var s := Stanza(shares[i].path);
      StanzaIsNotEmpty(shares[i].path);
      StanzasOneMore(shares, i);
      counts := counts[s := (if s in counts then counts[s] else 0) + 1];
      expected := expected + |s|;
    }
    assert shares[..|shares|] == shares;
  }

  lemma NoStanzas(shares: seq<Share>)
    ensures Stanzas(shares[..0]) == [] && Concat([]) == ""
  {
  }

  // The consuming loop, and the final look for stanzas never seen.
  method Consume(given: map<string, nat>, data: string, ghost all: multiset<string>) returns (ok: bool)
    requires "" !in given && Counts(given, all)
    ensures ok <==> Consumed(all, data)
  {
    hide Consumed, OnlyPrefix;
    var counts := given;
    ghost var m := all;
    var offset := 0;
    assert data[0..] == data;
    while offset < |data|
      invariant 0 <= offset <= |data| && "" !in counts && Counts(counts, m)
      invariant Consumed(m, data[offset..]) <==> Consumed(all, data)
      decreases |data| - offset
    {
      var found, ambiguous := NextStanza(counts, data[offset..], m);
      if ambiguous || found == "" {
        NoNextMeansRejected(m, data[offset..]);
        return false;
      }
      ConsumedStep(m, data[offset..], found);
      assert data[offset..][|found|..] == data[offset + |found|..];
      counts := counts[found := counts[found] - 1];
      m := m - multiset{found};
      offset := offset + |found|;
    }
    ConsumedEnd(m);
    assert data[offset..] == "";
    ok := NothingRemains(counts);
    NothingLeft(counts, m);
  }

  method NothingRemains(counts: map<string, nat>) returns (ok: bool)
    ensures ok <==> forall s | s in counts :: counts[s] == 0
  {
    ok := true;
    var keys := counts.Keys;
    while keys != {}
      invariant keys <= counts.Keys
      invariant ok <==> forall s | s in counts && s !in keys :: counts[s] == 0
    {
      var s :| s in keys;
      keys := keys - {s};
      if counts[s] != 0 { ok := false; }
    }
  }

  /** validateLegacySambaSharesConfig */
  method Validate(shares: seq<Share>, data: string) returns (ok: bool)
    ensures ok <==> Accepted(shares, data)
  {
    hide Consumed, Stanza, Stanzas, Concat, ValidPath, Counts;
    if |shares| > MAX_SHARES || |data| > MAX_BYTES { return false; }
    var valid, counts, expected := CountStanzas(shares);
    if !valid || |data| != expected { return false; }
    ok := Consume(counts, data, multiset(Stanzas(shares)));
  }

  lemma NothingLeft(counts: map<string, nat>, m: multiset<string>)
    requires Counts(counts, m)
    ensures m == multiset{} <==> forall s | s in counts :: counts[s] == 0
  {
    if s :| s in counts && counts[s] != 0 { assert s in m; }
    if forall s | s in counts :: counts[s] == 0 { assert forall s :: m[s] == 0; }
  }

  lemma StanzaIsNotEmpty(p: string)
    ensures Stanza(p) != ""
  {
    assert Stanza(p)[0] == '\n';
  }

  lemma StanzasOneMore(shares: seq<Share>, i: nat)
    requires i < |shares|
    ensures Stanzas(shares[..i + 1]) == Stanzas(shares[..i]) + [Stanza(shares[i].path)]
    ensures multiset(Stanzas(shares[..i + 1])) == multiset(Stanzas(shares[..i])) + multiset{Stanza(shares[i].path)}
    ensures |Concat(Stanzas(shares[..i + 1]))| == |Concat(Stanzas(shares[..i]))| + |Stanza(shares[i].path)|
  {
    hide Stanza;
    assert Stanzas(shares[..i + 1]) == Stanzas(shares[..i]) + [Stanza(shares[i].path)];
    ConcatAppend(Stanzas(shares[..i]), Stanza(shares[i].path));
  }

  lemma {:induction false} ConcatAppend(parts: seq<string>, s: string)
    ensures Concat(parts + [s]) == Concat(parts) + s
  {
    if parts == [] {
      assert parts + [s] == [s] && Concat([s]) == s + Concat([]);
    } else {
      assert (parts + [s])[1..] == parts[1..] + [s];
      ConcatAppend(parts[1..], s);
    }
  }

  lemma NoNextMeansRejected(m: multiset<string>, data: string)
    requires data != "" && forall s :: !OnlyPrefix(m, data, s)
    ensures !Consumed(m, data)
  {
  }

  lemma ConsumedStep(m: multiset<string>, data: string, s: string)
    requires data != "" && OnlyPrefix(m, data, s)
    ensures Consumed(m, data) <==> Consumed(m - multiset{s}, data[|s|..])
    ensures 0 < |s| <= |data| && s in m
  {
    if Consumed(m, data) {
      var t :| OnlyPrefix(m, data, t) && Consumed(m - multiset{t}, data[|t|..]);
      assert t == s;
    }
  }

  lemma ConsumedEnd(m: multiset<string>)
    ensures Consumed(m, "") <==> m == multiset{}
  {
  }

  // ---------- soundness ----------

  lemma FirstStanza(m: multiset<string>, data: string) returns (s: string)
    requires data != "" && Consumed(m, data)
    ensures s in m && s != "" && s <= data && Consumed(m - multiset{s}, data[|s|..])
  {
    s :| OnlyPrefix(m, data, s) && Consumed(m - multiset{s}, data[|s|..]);
  }

  lemma PrefixAndRest(s: string, data: string)
    requires s <= data
    ensures s + data[|s|..] == data
  {
  }

  lemma OrderCons(m: multiset<string>, s: string, rest: seq<string>)
    requires s in m && multiset(rest) == m - multiset{s}
    ensures multiset([s] + rest) == m
  {
  }

  lemma ConcatCons(s: string, rest: seq<string>)
    ensures Concat([s] + rest) == s + Concat(rest)
  {
    assert ([s] + rest)[1..] == rest;
  }

  /** Accepted bytes are a concatenation of exactly the rows' stanzas in some order. */
  lemma {:induction false} AcceptedIsSomeOrder(m: multiset<string>, data: string) returns (order: seq<string>)
    requires Consumed(m, data)
    ensures multiset(order) == m && Concat(order) == data
    decreases |data|
  {
    hide *;
    if data == "" {
      ConsumedEnd(m);
      order := [];
      assert Concat([]) == "" by { NoStanzas([]); }
    } else {
      var s := FirstStanza(m, data);
      var rest := AcceptedIsSomeOrder(m - multiset{s}, data[|s|..]);
      order := [s] + rest;
      ConcatCons(s, rest);
      PrefixAndRest(s, data);
      OrderCons(m, s, rest);
    }
  }

  // ---------- completeness ----------

  ghost predicate PrefixFree(m: multiset<string>) {
    forall s, t | s in m && t in m && s <= t :: s == t
  }

  lemma {:induction false} EveryOrderConsumed(order: seq<string>)
    requires PrefixFree(multiset(order)) && "" !in order
    ensures Consumed(multiset(order), Concat(order))
  {
    if order != [] {
      var m, data, s := multiset(order), Concat(order), order[0];
      assert order == [s] + order[1..];
      assert multiset(order[1..]) == m - multiset{s};
      EveryOrderConsumed(order[1..]);
      assert s in m && s <= data && data[|s|..] == Concat(order[1..]);
      forall t | t in m && t <= data ensures t == s {
        PrefixesNest(s, t, data);
      }
      assert OnlyPrefix(m, data, s);
      ConsumedStep(m, data, s);
    }
  }

  lemma PrefixesNest(s: string, t: string, data: string)
    requires s <= data && t <= data
    ensures s <= t || t <= s
  {
    assert s == data[..|s|] && t == data[..|t|];
  }

  // A stanza that continues another makes the order that starts with it ambiguous.
  lemma ProperPrefixIsAmbiguous(m: multiset<string>, s: string, t: string) returns (order: seq<string>)
    requires s in m && t in m && s <= t && s != t
    ensures multiset(order) == m && !Consumed(m, Concat(order))
  {
    var rest := SomeOrder(m - multiset{t});
    order := [t] + rest;
    assert order[1..] == rest && multiset(order) == multiset{t} + multiset(rest) == m;
    var data := Concat(order);
    assert t <= data && s <= data;
    assert data != "";
    forall u ensures !OnlyPrefix(m, data, u) {}
    NoNextMeansRejected(m, data);
  }

  lemma {:induction false} SomeOrder(m: multiset<string>) returns (order: seq<string>)
    ensures multiset(order) == m
    decreases |m|
  {
    if m == multiset{} {
      order := [];
    } else {
      var s :| s in m;
      order := SomeOrder(m - multiset{s});
      order := order + [s];
    }
  }

  ghost predicate EveryOrderAccepted(shares: seq<Share>) {
    forall order: seq<string> | multiset(order) == multiset(Stanzas(shares)) :: Accepted(shares, Concat(order))
  }

  ghost predicate Rows(shares: seq<Share>) {
    && |shares| <= 256 && |Concat(Stanzas(shares))| <= 4 * 1024 * 1024
    && forall i | 0 <= i < |shares| :: ValidPath(shares[i].path)
  }

  /** For rows that fit the limits, every order of their stanzas is accepted exactly when no
      stanza is a proper prefix of another. */
  lemma EveryOrderAcceptedIff(shares: seq<Share>)
    requires Rows(shares)
    ensures EveryOrderAccepted(shares) <==> PrefixFree(multiset(Stanzas(shares)))
  {
    hide Stanza, Consumed, Stanzas, ValidPath;
    var m := multiset(Stanzas(shares));
    if PrefixFree(m) {
      forall order: seq<string> | multiset(order) == m ensures Accepted(shares, Concat(order)) {
        NoEmptyStanza(shares, order);
        EveryOrderConsumed(order);
        SameLength(order, Stanzas(shares));
      }
    } else {
      var s, t :| s in m && t in m && s <= t && s != t;
      var order := ProperPrefixIsAmbiguous(m, s, t);
      assert !Accepted(shares, Concat(order));
    }
  }

  lemma NoEmptyStanza(shares: seq<Share>, order: seq<string>)
    requires multiset(order) == multiset(Stanzas(shares))
    ensures "" !in order
  {
    hide Stanza;
    if "" in order {
      assert "" in multiset(order);
      assert "" in Stanzas(shares);
      var i :| 0 <= i < |shares| && Stanza(shares[i].path) == "";
      StanzaIsNotEmpty(shares[i].path);
    }
  }

  lemma {:induction false} SameLength(a: seq<string>, b: seq<string>)
    requires multiset(a) == multiset(b)
    ensures |Concat(a)| == |Concat(b)|
    decreases |a|
  {
    if a == [] {
      assert multiset(b) == multiset{};
      assert b == [];
    } else {
      assert a[0] in multiset(b);
      var i :| 0 <= i < |b| && b[i] == a[0];
      WithoutOne(b, i);
      assert a == [a[0]] + a[1..];
      SameLength(a[1..], b[..i] + b[i + 1..]);
    }
  }

  lemma WithoutOne(b: seq<string>, i: nat)
    requires i < |b|
    ensures multiset(b[..i] + b[i + 1..]) == multiset(b) - multiset{b[i]}
    ensures |Concat(b)| == |b[i]| + |Concat(b[..i] + b[i + 1..])|
  {
    var front, back := b[..i], b[i + 1..];
    assert b == front + ([b[i]] + back);
    ConcatSplit(front, back);
    ConcatSplit(front, [b[i]] + back);
    assert ([b[i]] + back)[1..] == back;
  }

  lemma {:induction false} ConcatSplit(a: seq<string>, b: seq<string>)
    ensures Concat(a + b) == Concat(a) + Concat(b)
  {
    if a == [] {
      assert a + b == b;
    } else {
      assert (a + b)[1..] == a[1..] + b;
      ConcatSplit(a[1..], b);
    }
  }

  // ---------- when stanzas are prefix free ----------

  ghost predicate OneLine(s: string) { '\n' !in s }

  // If a first line and more is a prefix of another first line and more, the lines agree.
  lemma FirstLine(a: string, x: string, b: string, y: string)
    requires OneLine(a) && OneLine(b) && a + "\n" + x <= b + "\n" + y
    ensures a == b && x <= y
  {
    var s, t := a + "\n" + x, b + "\n" + y;
    assert s[|a|] == '\n' && t[|b|] == '\n';
    assert a == s[..|a|] && b == t[..|b|] && s[..|a|] == t[..|a|];
    assert x == s[|a| + 1..] && y == t[|a| + 1..];
  }

  lemma {:induction false} BaseIsOneLine(path: string)
    requires OneLine(path)
    ensures OneLine(Base(path))
    decreases |path|
  {
    if path != "" && path != "/" {
      if path[|path| - 1] == '/' { BaseIsOneLine(path[..|path| - 1]); } else { LastIsOneLine(path); }
    }
  }

  lemma {:induction false} LastIsOneLine(path: string)
    requires OneLine(path)
    ensures OneLine(LastComponent(path))
  {
    if path != "" && path[|path| - 1] != '/' {
      LastIsOneLine(path[..|path| - 1]);
      assert path[|path| - 1] in path;
    }
  }

  lemma OneLineStanzas(p: string, q: string)
    requires OneLine(p) && OneLine(q) && Stanza(p) <= Stanza(q)
    ensures p == q
  {
    hide Base, OneLine, StanzaOf;
    BaseIsOneLine(p);
    BaseIsOneLine(q);
    LinesDiffer(Base(p), p, Base(q), q);
  }

  lemma LinesDiffer(a: string, p: string, b: string, q: string)
    requires OneLine(a) && OneLine(b) && OneLine(p) && OneLine(q) && StanzaOf(a, p) <= StanzaOf(b, q)
    ensures p == q
  {
    hide Tail;
    var t := Tail();
    var p4, q4 := ("path = " + p) + "\n" + t, ("path = " + q) + "\n" + t;
    var p3, q3 := "public = Yes" + "\n" + p4, "public = Yes" + "\n" + q4;
    var p2, q2 := ("comment = CasaOS share " + a) + "\n" + p3, ("comment = CasaOS share " + b) + "\n" + q3;
    FirstLine("", ("[" + a + "]") + "\n" + p2, "", ("[" + b + "]") + "\n" + q2);
    FirstLine("[" + a + "]", p2, "[" + b + "]", q2);
    FirstLine("comment = CasaOS share " + a, p3, "comment = CasaOS share " + b, q3);
    FirstLine("public = Yes", p4, "public = Yes", q4);
    FirstLine("path = " + p, t, "path = " + q, t);
    assert ("path = " + p)[7..] == p && ("path = " + q)[7..] == q;
  }

  /** Paths without line breaks give prefix-free stanzas. */
  lemma OneLinePathsArePrefixFree(shares: seq<Share>)
    requires forall i | 0 <= i < |shares| :: OneLine(shares[i].path)
    ensures PrefixFree(multiset(Stanzas(shares)))
  {
    hide Stanza;
    forall s, t | s in multiset(Stanzas(shares)) && t in multiset(Stanzas(shares)) && s <= t ensures s == t {
      assert s in Stanzas(shares) && t in Stanzas(shares);
      var i :| 0 <= i < |shares| && Stanza(shares[i].path) == s;
      var k :| 0 <= k < |shares| && Stanza(shares[k].path) == t;
      OneLineStanzas(shares[i].path, shares[k].path);
    }
  }

  // ---------- a line break in a path ----------

  lemma {:induction false} AsciiIsValid(s: string)
    requires Ascii(s)
    ensures ValidUtf8(s)
  {
    if s != "" { AsciiIsValid(s[1..]); }
  }

  lemma {:induction false} LastOfJoined(p: string, c: string)
    requires '/' !in c
    ensures LastComponent(p + "/" + c) == c
  {
    if c == "" {
      assert (p + "/" + c)[|p|] == '/';
    } else {
      assert (p + "/" + c)[..|p + "/" + c| - 1] == p + "/" + c[..|c| - 1];
      LastOfJoined(p, c[..|c| - 1]);
    }
  }

  predicate Ascii(s: string) {
    forall i | 0 <= i < |s| :: s[i] as int < 0x80
  }

  lemma TailIsAscii()
    ensures Ascii(Tail()) && |Tail()| < 200
  {
    var f := "force user = root" + "\n" + "\n";
    var d := "directory mask = 0777" + "\n" + f;
    var c := "create mask = 0777" + "\n" + d;
    var g := "guest ok = Yes" + "\n" + c;
    AsciiLine("force user = root", "\n");
    AsciiLine("directory mask = 0777", f);
    AsciiLine("create mask = 0777", d);
    AsciiLine("guest ok = Yes", c);
    AsciiLine("read only = No", g);
    AsciiLine("browseable = Yes", "read only = No" + "\n" + g);
  }

  lemma AsciiLine(line: string, rest: string)
    requires Ascii(line) && Ascii(rest)
    ensures Ascii(line + "\n" + rest)
  {
  }

  lemma AsciiJoined(a: string, b: string)
    requires Ascii(a) && Ascii(b)
    ensures Ascii(a + b)
  {
  }

  // A path that contains, after p, the end of p's stanza.
  function Continued(p: string): string {
    p + "\n" + Tail() + "/a"
  }

  lemma ContinuedStanza()
    ensures Stanza("/a") < Stanza(Continued("/a"))
    ensures ValidPath("/a") && ValidPath(Continued("/a")) && |Continued("/a")| < 300
  {
    hide Tail, LastComponent, ValidUtf8;
    var p, q := "/a", Continued("/a");
    LastOfJoined("", "a");
    LastOfJoined(p + "\n" + Tail(), "a");
    assert "" + "/" + "a" == p && p + "\n" + Tail() + "/" + "a" == q;
    assert Base(p) == "a" && Base(q) == "a";
    assert ("path = " + q) + "\n" + Tail() == ("path = " + p) + "\n" + Tail() + ("/a" + "\n" + Tail());
    PrefixExtends("a", p, q, "/a" + "\n" + Tail());
    TailIsAscii();
    AsciiJoined(p, "\n");
    AsciiJoined(p + "\n", Tail());
    AsciiJoined(p + "\n" + Tail(), "/a");
    AsciiIsValid(p);
    AsciiIsValid(q);
  }

  lemma PrefixExtends(name: string, p: string, q: string, more: string)
    requires ("path = " + q) + "\n" + Tail() == ("path = " + p) + "\n" + Tail() + more && more != ""
    ensures StanzaOf(name, p) < StanzaOf(name, q)
  {
    hide Tail;
    assert StanzaOf(name, q) == StanzaOf(name, p) + more;
  }

  /** With such a path two valid rows can give bytes, written from exactly those rows, that
      are refused. */
  lemma LineBreakIsRefused() returns (shares: seq<Share>, order: seq<string>)
    ensures Rows(shares) && multiset(order) == multiset(Stanzas(shares)) && !Accepted(shares, Concat(order))
  {
    hide Consumed, Stanza, ValidPath, Continued;
    var p, q := "/a", Continued("/a");
    ContinuedStanza();
    shares := [Share(1, p, "a", false, ""), Share(2, q, "a", false, "")];
    var s, t := Stanza(p), Stanza(q);
    assert Stanzas(shares) == [s, t];
    StanzaLength(p);
    StanzaLength(q);
    assert Concat([s, t]) == s + Concat([s, t][1..]) && [s, t][1..] == [t] && Concat([t]) == t + Concat([]);
    assert s in multiset(Stanzas(shares)) && t in multiset(Stanzas(shares)) && s <= t && s != t;
    order := ProperPrefixIsAmbiguous(multiset(Stanzas(shares)), s, t);
  }

  lemma StanzaLength(p: string)
    ensures |Stanza(p)| <= 3 * |p| + 300
  {
    hide Tail, Base;
    TailIsAscii();
    BaseIsShort(p);
  }

  lemma {:induction false} BaseIsShort(p: string)
    ensures |Base(p)| <= |p| + 1
    decreases |p|
  {
    if p != "" && p != "/" {
      if p[|p| - 1] == '/' { BaseIsShort(p[..|p| - 1]); } else { LastIsShort(p); }
    }
  }

  lemma {:induction false} LastIsShort(p: string)
    ensures |LastComponent(p)| <= |p|
  {
    if p != "" && p[|p| - 1] != '/' { LastIsShort(p[..|p| - 1]); }
  }
}
