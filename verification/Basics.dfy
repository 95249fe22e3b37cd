/** What several of the modules share. */
module Basics {

  datatype Option<T> = None | Some(value: T)

  // The mutation metadata of an error (pkg/filesecurity/managed_copy.go): whether something
  // changed, and whether it is unknown that the change will last.
  datatype Mark = Mark(changed: bool, durabilityUnknown: bool)

  // `kept` are exactly those elements of `all` that are to be kept, in their order.
  ghost predicate Filters<T(!new)>(all: seq<T>, keep: T -> bool, kept: seq<T>) {
    exists idx: seq<nat> :: Picks(all, keep, kept, idx)
  }

  // ... found at the positions idx.
  ghost predicate Picks<T(!new)>(all: seq<T>, keep: T -> bool, kept: seq<T>, idx: seq<nat>) {
    && |idx| == |kept| && (forall k | 0 <= k < |idx| :: idx[k] < |all| && kept[k] == all[idx[k]] && keep(kept[k]))
    && (forall k, m | 0 <= k < m < |idx| :: idx[k] < idx[m])
    && (forall i: nat | i < |all| && keep(all[i]) :: i in idx)
  }

  lemma FiltersNothing<T(!new)>(keep: T -> bool)
    ensures Filters([], keep, [])
  {
    assert Picks([], keep, [], []);
  }

  lemma FiltersOneMore<T(!new)>(all: seq<T>, keep: T -> bool, kept: seq<T>, x: T)
    requires Filters(all, keep, kept)
    ensures Filters(all + [x], keep, if keep(x) then kept + [x] else kept)
  {
    var idx: seq<nat> :| Picks(all, keep, kept, idx);
    var more := all + [x];
    if keep(x) {
      var next: seq<nat> := idx + [|all|];
      forall i: nat | i < |more| && keep(more[i]) ensures i in next {
        if i == |all| { assert next[|idx|] == i; } else { assert more[i] == all[i] && i in idx; }
      }
      assert Picks(more, keep, kept + [x], next);
    } else {
      assert Picks(more, keep, kept, idx);
    }
  }

  // One of the lines of the text, each of which ends with a line break.
  ghost predicate HasLine(text: string, line: string) {
    exists a, b :: text == a + line + "\n" + b && (a == "" || a[|a| - 1] == '\n')
  }

  lemma LineFirst(line: string, rest: string)
    ensures HasLine(line + "\n" + rest, line)
  {
    assert line + "\n" + rest == "" + line + "\n" + rest;
  }

  lemma LineLater(first: string, rest: string, line: string)
    requires HasLine(rest, line)
    ensures HasLine(first + "\n" + rest, line)
  {
    var a, b :| rest == a + line + "\n" + b && (a == "" || a[|a| - 1] == '\n');
    var before := first + "\n" + a;
    assert first + "\n" + rest == before + line + "\n" + b;
  }
}
