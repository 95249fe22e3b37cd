/**
 Mutation metadata carried by error values (pkg/filesecurity/managed_copy.go).

 Error values form a graph: a node may wrap one error or a list of them, some nil, and
 nothing stops the links from being cyclic.  aggregateManagedMutationState walks the graph
 with an explicit stack and fixed budgets.
 */
module MutationErrors {
  import opened Basics

  // `changed` and `durabilityUnknown` are what a *ManagedMutationError carries; both are
  // false for any other error.  `wraps` is the result of Unwrap, nil entries included.
  datatype ErrNode = ErrNode(changed: bool, durabilityUnknown: bool, wraps: seq<Option<nat>>)

  type Graph = seq<ErrNode>

  datatype Item = Item(err: Option<nat>, depth: nat)

  const MAX_NODES := 256
  const MAX_DEPTH := 64

  predicate Exists(g: Graph, e: Option<nat>) {
    e.Some? ==> e.value < |g|
  }

  predicate WellFormed(g: Graph) {
    forall n, i | 0 <= n < |g| && 0 <= i < |g[n].wraps| :: Exists(g, g[n].wraps[i])
  }

  predicate ValidStack(g: Graph, stack: seq<Item>) {
    forall i | 0 <= i < |stack| :: Exists(g, stack[i].err)
  }

  function Children(g: Graph, n: nat, depth: nat): (items: seq<Item>)
    requires n < |g| && WellFormed(g)
    ensures |items| == |g[n].wraps| && ValidStack(g, items)
    ensures forall i | 0 <= i < |items| :: items[i] == Item(g[n].wraps[i], depth)
  {
    seq(|g[n].wraps|, i requires 0 <= i < |g[n].wraps| => Item(g[n].wraps[i], depth))
  }

  // The stack once its top, an error, is replaced by what that wraps.
  function Expand(g: Graph, rest: seq<Item>, top: Item): (next: seq<Item>)
    requires WellFormed(g) && ValidStack(g, rest) && top.err.Some? && Exists(g, top.err)
    ensures ValidStack(g, next)
  {
    rest + Children(g, top.err.value, top.depth + 1)
  }

  // The walk consumes the whole stack within its budgets.
  ghost predicate Clean(g: Graph, stack: seq<Item>, visited: nat)
    requires WellFormed(g) && ValidStack(g, stack) && visited <= MAX_NODES
    decreases MAX_NODES - visited, |stack|
  {
    if stack == [] then true
    else if visited == MAX_NODES then false
    else
      var top, rest := stack[|stack| - 1], stack[..|stack| - 1];
      if top.err.None? then Clean(g, rest, visited)
      else top.depth <= MAX_DEPTH && Clean(g, Expand(g, rest, top), visited + 1)
  }

  // The nodes the walk looks at, in order.
  ghost function Visited(g: Graph, stack: seq<Item>, visited: nat): (r: seq<nat>)
    requires WellFormed(g) && ValidStack(g, stack) && visited <= MAX_NODES
    ensures forall i | 0 <= i < |r| :: r[i] < |g|
    decreases MAX_NODES - visited, |stack|
  {
    if stack == [] || visited == MAX_NODES then []
    else
      var top, rest := stack[|stack| - 1], stack[..|stack| - 1];
      if top.err.None? || top.depth > MAX_DEPTH then Visited(g, rest, visited)
      else [top.err.value] + Visited(g, Expand(g, rest, top), visited + 1)
  }

  ghost predicate AnyChanged(g: Graph, nodes: seq<nat>)
    requires forall i | 0 <= i < |nodes| :: nodes[i] < |g|
  {
    exists i | 0 <= i < |nodes| :: g[nodes[i]].changed
  }

  ghost predicate AnyUnknown(g: Graph, nodes: seq<nat>)
    requires forall i | 0 <= i < |nodes| :: nodes[i] < |g|
  {
    exists i | 0 <= i < |nodes| :: g[nodes[i]].durabilityUnknown
  }

  datatype Flags = Flags(changed: bool, durabilityUnknown: bool)

  // The reported state: exact when the walk is clean, (true, true) when it is not.
  ghost function Reported(g: Graph, root: Option<nat>): Flags
    requires WellFormed(g) && Exists(g, root)
  {
    var stack := [Item(root, 0)];
    if Clean(g, stack, 0)
    then Flags(AnyChanged(g, Visited(g, stack, 0)), AnyUnknown(g, Visited(g, stack, 0)))
    else Flags(true, true)
  }

  // One turn of the walk.
  lemma WalkStep(g: Graph, stack: seq<Item>, visited: nat)
    requires WellFormed(g) && ValidStack(g, stack) && stack != [] && visited < MAX_NODES
    ensures var top, rest := stack[|stack| - 1], stack[..|stack| - 1];
            && Exists(g, top.err) && ValidStack(g, rest)
            && (top.err.None? ==>
                  Clean(g, stack, visited) == Clean(g, rest, visited) &&
                    Visited(g, stack, visited) == Visited(g, rest, visited))
            && (top.err.Some? ==>
                  var next := Expand(g, rest, top);
                  && Clean(g, stack, visited) == (top.depth <= MAX_DEPTH && Clean(g, next, visited + 1))
                  && Visited(g, stack, visited) ==
                       if top.depth > MAX_DEPTH then Visited(g, rest, visited)
                         else [top.err.value] + Visited(g, next, visited + 1))
  {
    hide WellFormed;
  }

  // Where it stops.
  lemma WalkEnds(g: Graph, stack: seq<Item>, visited: nat)
    requires WellFormed(g) && ValidStack(g, stack) && visited <= MAX_NODES && (stack == [] || visited == MAX_NODES)
    ensures Visited(g, stack, visited) == [] && (Clean(g, stack, visited) <==> stack == [])
  {
    hide WellFormed;
  }

  lemma ValidRoot(g: Graph, root: Option<nat>)
    requires Exists(g, root)
    ensures ValidStack(g, [Item(root, 0)])
    ensures !AnyChanged(g, []) && !AnyUnknown(g, [])
  {
  }

  /** aggregateManagedMutationState; it terminates on cyclic graphs too. */
  method Aggregate(g: Graph, root: Option<nat>) returns (r: Flags)
    requires WellFormed(g) && Exists(g, root)
    ensures r == Reported(g, root)
  {
    hide Clean, Visited, Expand, Children, WellFormed, ValidStack, AnyChanged, AnyUnknown;
    var stack := [Item(root, 0)];
    ValidRoot(g, root);
    var visited, truncated := 0, false;
    var changed, unknown := false, false;
    ghost var done: seq<nat> := [];
    while |stack| > 0 && visited < MAX_NODES
      invariant ValidStack(g, stack) && visited <= MAX_NODES
      invariant forall i | 0 <= i < |done| :: done[i] < |g|
      invariant changed == AnyChanged(g, done) && unknown == AnyUnknown(g, done)
      invariant done + Visited(g, stack, visited) == Visited(g, [Item(root, 0)], 0)
      invariant Clean(g, [Item(root, 0)], 0) <==> !truncated && Clean(g, stack, visited)
      decreases MAX_NODES - visited, |stack|
    {
      WalkStep(g, stack, visited);
      var current := stack[|stack| - 1];
      stack := stack[..|stack| - 1];
      if current.err.None? {
        continue;
      }
      if current.depth > MAX_DEPTH {
        truncated := true;
        continue;
      }
      var n := current.err.value;
      visited := visited + 1;
      changed := changed || g[n].changed;
      unknown := unknown || g[n].durabilityUnknown;
      AnyOfAppend(g, done, n);
      Assoc(done, n, Visited(g, Expand(g, stack, current), visited));
      done := done + [n];
      stack := Expand(g, stack, current);
    }
    WalkEnds(g, stack, visited);
    assert done + [] == done;
    r := if truncated || |stack| > 0 then Flags(true, true) else Flags(changed, unknown);
  }

  lemma Assoc(a: seq<nat>, n: nat, b: seq<nat>)
    ensures (a + [n]) + b == a + ([n] + b)
  {
  }

  lemma AnyOfAppend(g: Graph, s: seq<nat>, n: nat)
    requires n < |g| && forall i | 0 <= i < |s| :: s[i] < |g|
    ensures AnyChanged(g, s + [n]) <==> AnyChanged(g, s) || g[n].changed
    ensures AnyUnknown(g, s + [n]) <==> AnyUnknown(g, s) || g[n].durabilityUnknown
  {
    assert (s + [n])[|s|] == n;
    assert forall i | 0 <= i < |s| :: (s + [n])[i] == s[i];
  }

  // ---------- reachability ----------

  ghost predicate Wraps(g: Graph, a: nat, b: nat) {
    a < |g| && b < |g| && Some(b) in g[a].wraps
  }

  ghost predicate Path(g: Graph, p: seq<nat>) {
    && |p| > 0 && p[0] < |g|
    && forall i | 0 <= i < |p| - 1 :: Wraps(g, p[i], p[i + 1])
  }

  ghost predicate Reachable(g: Graph, a: nat, b: nat) {
    exists p: seq<nat> :: Path(g, p) && p[0] == a && p[|p| - 1] == b
  }

  // v contains what the stack names, and what its own members wrap.
  ghost predicate Holds(stack: seq<Item>, v: seq<nat>) {
    forall i | 0 <= i < |stack| && stack[i].err.Some? :: stack[i].err.value in v
  }

  ghost predicate Closed(g: Graph, v: seq<nat>) {
    forall n: nat, m: nat | n in v && Wraps(g, n, m) :: m in v
  }

  // A clean walk visits everything on its stack and everything its nodes wrap.
  lemma {:induction false} CleanWalkIsClosed(g: Graph, stack: seq<Item>, visited: nat)
    requires WellFormed(g) && ValidStack(g, stack) && visited <= MAX_NODES && Clean(g, stack, visited)
    ensures Holds(stack, Visited(g, stack, visited)) && Closed(g, Visited(g, stack, visited))
    decreases MAX_NODES - visited, |stack|
  {
    hide *;
    if stack == [] || visited == MAX_NODES {
      WalkEnds(g, stack, visited);
      NothingIsClosed(g);
    } else {
      WalkStep(g, stack, visited);
      var top, rest := stack[|stack| - 1], stack[..|stack| - 1];
      if top.err.None? {
        CleanWalkIsClosed(g, rest, visited);
        HoldsPushed(stack, Visited(g, rest, visited));
      } else {
        var next := Expand(g, rest, top);
        CleanWalkIsClosed(g, next, visited + 1);
        ExpandHolds(g, rest, top, Visited(g, next, visited + 1));
        HoldsPushed(stack, [top.err.value] + Visited(g, next, visited + 1));
      }
    }
  }

  lemma NothingIsClosed(g: Graph)
    ensures Holds([], []) && Closed(g, [])
  {
  }

  lemma HoldsPushed(stack: seq<Item>, v: seq<nat>)
    requires stack != [] && Holds(stack[..|stack| - 1], v)
    requires var top := stack[|stack| - 1]; top.err.Some? ==> top.err.value in v
    ensures Holds(stack, v)
  {
    assert forall i | 0 <= i < |stack| - 1 :: stack[i] == stack[..|stack| - 1][i];
  }

  lemma ExpandHolds(g: Graph, rest: seq<Item>, top: Item, v: seq<nat>)
    requires WellFormed(g) && ValidStack(g, rest) && top.err.Some? && Exists(g, top.err)
    requires Holds(Expand(g, rest, top), v) && Closed(g, v)
    ensures Holds(rest, [top.err.value] + v) && Closed(g, [top.err.value] + v)
  {
    hide WellFormed, ValidStack;
    var next, n := Expand(g, rest, top), top.err.value;
    assert forall i | 0 <= i < |rest| :: next[i] == rest[i];
    forall m: nat | Wraps(g, n, m) ensures m in v {
      var i :| 0 <= i < |g[n].wraps| && g[n].wraps[i] == Some(m);
      assert next[|rest| + i].err == Some(m);
    }
  }

  ghost predicate StackReachable(g: Graph, root: nat, stack: seq<Item>) {
    forall i | 0 <= i < |stack| && stack[i].err.Some? :: Reachable(g, root, stack[i].err.value)
  }

  ghost predicate AllReachable(g: Graph, root: nat, nodes: seq<nat>) {
    forall i | 0 <= i < |nodes| :: Reachable(g, root, nodes[i])
  }

  // Every visited node is reachable from where the stack came from.
  lemma {:induction false} VisitedIsReachable(g: Graph, root: nat, stack: seq<Item>, visited: nat)
    requires WellFormed(g) && ValidStack(g, stack) && visited <= MAX_NODES && StackReachable(g, root, stack)
    ensures AllReachable(g, root, Visited(g, stack, visited))
    decreases MAX_NODES - visited, |stack|
  {
    hide *;
    if stack == [] || visited == MAX_NODES {
      WalkEnds(g, stack, visited);
      NothingToReach(g, root);
    } else {
      var top, rest := stack[|stack| - 1], stack[..|stack| - 1];
      StackReachablePop(g, root, stack);
      WalkStep(g, stack, visited);
      VisitedIsReachable(g, root, rest, visited);
      if top.err.Some? && top.depth <= MAX_DEPTH {
        ExpandIsReachable(g, root, rest, top);
        VisitedIsReachable(g, root, Expand(g, rest, top), visited + 1);
        AllReachableCons(g, root, top.err.value, Visited(g, Expand(g, rest, top), visited + 1));
      }
    }
  }

  lemma NothingToReach(g: Graph, root: nat)
    ensures AllReachable(g, root, [])
  {
  }

  lemma StackReachablePop(g: Graph, root: nat, stack: seq<Item>)
    requires stack != [] && StackReachable(g, root, stack)
    ensures var top := stack[|stack| - 1]; top.err.Some? ==> Reachable(g, root, top.err.value)
    ensures StackReachable(g, root, stack[..|stack| - 1])
  {
    hide Reachable;
  }

  lemma AllReachableCons(g: Graph, root: nat, n: nat, nodes: seq<nat>)
    requires Reachable(g, root, n) && AllReachable(g, root, nodes)
    ensures AllReachable(g, root, [n] + nodes)
  {
    hide Reachable;
  }

  lemma ExpandIsReachable(g: Graph, root: nat, rest: seq<Item>, top: Item)
    requires WellFormed(g) && ValidStack(g, rest) && top.err.Some? && Exists(g, top.err)
    requires Reachable(g, root, top.err.value)
    requires StackReachable(g, root, rest)
    ensures StackReachable(g, root, Expand(g, rest, top))
  {
    hide Reachable;
    var n := top.err.value;
    var next := Expand(g, rest, top);
    forall i | |rest| <= i < |next| && next[i].err.Some? ensures Reachable(g, root, next[i].err.value) {
      assert Exists(g, next[i].err) && g[n].wraps[i - |rest|] == next[i].err;
      ReachFurther(g, root, n, next[i].err.value);
    }
  }

  lemma ReachFurther(g: Graph, a: nat, b: nat, c: nat)
    requires Reachable(g, a, b) && Wraps(g, b, c)
    ensures Reachable(g, a, c)
  {
    var p :| Path(g, p) && p[0] == a && p[|p| - 1] == b;
    var q := p + [c];
    assert forall i | 0 <= i < |q| - 1 :: Wraps(g, q[i], q[i + 1]);
    assert Path(g, q);
  }

  lemma ReachThrough(g: Graph, a: nat, b: nat, c: nat)
    requires Wraps(g, a, b) && Reachable(g, b, c)
    ensures Reachable(g, a, c)
  {
    var p :| Path(g, p) && p[0] == b && p[|p| - 1] == c;
    var q := [a] + p;
    assert forall i | 0 <= i < |q| - 1 :: Wraps(g, q[i], q[i + 1]);
    assert Path(g, q);
  }

  lemma {:induction false} ClosedUnderPaths(g: Graph, v: seq<nat>, p: seq<nat>)
    requires Path(g, p) && p[0] in v
    requires forall n: nat, m: nat | n in v && Wraps(g, n, m) :: m in v
    ensures p[|p| - 1] in v
  {
    if |p| > 1 {
      assert Wraps(g, p[0], p[1]);
      var q := p[1..];
      forall i | 0 <= i < |q| - 1 ensures Wraps(g, q[i], q[i + 1]) {
        assert Wraps(g, p[i + 1], p[i + 2]);
      }
      ClosedUnderPaths(g, v, q);
    }
  }

  /** Fails closed on every graph, cyclic ones included: a reported false means that no
      reachable node carries the flag; and unless a budget ran out, a reported true means
      that one does. */
  lemma FailsClosed(g: Graph, root: nat)
    requires WellFormed(g) && root < |g|
    ensures var r := Reported(g, Some(root));
            && (forall n: nat | n < |g| && Reachable(g, root, n) ::
                (g[n].changed ==> r.changed) && (g[n].durabilityUnknown ==> r.durabilityUnknown))
            && (Clean(g, [Item(Some(root), 0)], 0) ==>
                  && (r.changed <==> exists n: nat :: n < |g| && Reachable(g, root, n) && g[n].changed)
                  && (r.durabilityUnknown <==>
                      exists n: nat :: n < |g| && Reachable(g, root, n) && g[n].durabilityUnknown))
  {
    var stack := [Item(Some(root), 0)];
    if Clean(g, stack, 0) {
      CleanWalkIsClosed(g, stack, 0);
      var v := Visited(g, stack, 0);
      assert stack[0].err.Some?;
      forall n: nat | n < |g| && Reachable(g, root, n) ensures n in v {
        var p :| Path(g, p) && p[0] == root && p[|p| - 1] == n;
        ClosedUnderPaths(g, v, p);
      }
      assert Path(g, [root]);
      VisitedIsReachable(g, root, stack, 0);
      forall n | n in v && g[n].changed ensures Reported(g, Some(root)).changed {
        var i :| 0 <= i < |v| && v[i] == n;
      }
      forall n | n in v && g[n].durabilityUnknown ensures Reported(g, Some(root)).durabilityUnknown {
        var i :| 0 <= i < |v| && v[i] == n;
      }
    }
  }

  // ---------- wrapping ----------

  // The stack below + s, seen from s.
  lemma OnTopOf(g: Graph, below: seq<Item>, s: seq<Item>)
    requires WellFormed(g) && ValidStack(g, below + s)
    ensures ValidStack(g, below) && ValidStack(g, s)
    ensures s == [] ==> below + s == below
    ensures s != [] ==>
              var top, rest := s[|s| - 1], s[..|s| - 1];
              && |below + s| > 0 && (below + s)[|below + s| - 1] == top
              && (below + s)[..|below + s| - 1] == below + rest
              && ValidStack(g, below + rest) && ValidStack(g, rest) && Exists(g, top.err)
              && (top.err.Some? ==> Expand(g, below + rest, top) == below + Expand(g, rest, top))
  {
    hide WellFormed;
    var all := below + s;
    forall i | 0 <= i < |below| ensures Exists(g, below[i].err) { assert all[i] == below[i]; }
    forall i | 0 <= i < |s| ensures Exists(g, s[i].err) { assert all[|below| + i] == s[i]; }
    assert s != [] ==> all[..|all| - 1] == below + s[..|s| - 1];
  }

  // What lies below on the stack only makes it harder.
  lemma {:induction false} CleanTop(g: Graph, below: seq<Item>, s: seq<Item>, visited: nat)
    requires WellFormed(g) && ValidStack(g, below + s) && ValidStack(g, s) && visited <= MAX_NODES
    requires Clean(g, below + s, visited)
    ensures Clean(g, s, visited)
    decreases MAX_NODES - visited, |s|
  {
    hide *;
    OnTopOf(g, below, s);
    if s == [] || visited == MAX_NODES {
      WalkEnds(g, s, visited);
      if s != [] { WalkEnds(g, below + s, visited); }
    } else {
      var top, rest := s[|s| - 1], s[..|s| - 1];
      WalkStep(g, below + s, visited);
      WalkStep(g, s, visited);
      if top.err.None? {
        CleanTop(g, below, rest, visited);
      } else {
        CleanTop(g, below, Expand(g, rest, top), visited + 1);
      }
    }
  }

  ghost predicate Shallower(t: seq<Item>, s: seq<Item>) {
    |t| == |s| && forall i | 0 <= i < |s| :: t[i].err == s[i].err && t[i].depth <= s[i].depth
  }

  // So do deeper positions and a larger count.
  lemma {:induction false} CleanShallower(g: Graph, s: seq<Item>, visited: nat, t: seq<Item>, less: nat)
    requires WellFormed(g) && ValidStack(g, s) && ValidStack(g, t) && less <= visited <= MAX_NODES
    requires Shallower(t, s) && Clean(g, s, visited)
    ensures Clean(g, t, less)
    decreases MAX_NODES - visited, |s|
  {
    hide *;
    ShallowerPop(t, s);
    if s == [] || visited == MAX_NODES {
      WalkEnds(g, s, visited);
      WalkEnds(g, t, less);
    } else {
      var top, rest := s[|s| - 1], s[..|s| - 1];
      var top', rest' := t[|t| - 1], t[..|t| - 1];
      WalkStep(g, s, visited);
      WalkStep(g, t, less);
      if top.err.None? {
        CleanShallower(g, rest, visited, rest', less);
      } else {
        ShallowerExpand(g, rest, top, rest', top');
        CleanShallower(g, Expand(g, rest, top), visited + 1, Expand(g, rest', top'), less + 1);
      }
    }
  }

  lemma ShallowerPop(t: seq<Item>, s: seq<Item>)
    requires Shallower(t, s)
    ensures |t| == |s|
    ensures s != [] ==>
              && Shallower(t[..|t| - 1], s[..|s| - 1])
              && t[|t| - 1].err == s[|s| - 1].err && t[|t| - 1].depth <= s[|s| - 1].depth
  {
  }

  lemma ShallowerExpand(g: Graph, rest: seq<Item>, top: Item, rest': seq<Item>, top': Item)
    requires WellFormed(g) && ValidStack(g, rest) && ValidStack(g, rest') && top.err.Some? && Exists(g, top.err)
    requires Shallower(rest', rest) && top'.err == top.err && top'.depth <= top.depth
    ensures Shallower(Expand(g, rest', top'), Expand(g, rest, top))
  {
    hide WellFormed, ValidStack;
  }

  /** Wrapping an error, alone or joined with others, never loses a flag. */
  lemma WrappingKeepsFlags(g: Graph, outer: nat, inner: nat)
    requires WellFormed(g) && outer < |g| && inner < |g| && Wraps(g, outer, inner)
    ensures Reported(g, Some(inner)).changed ==> Reported(g, Some(outer)).changed
    ensures Reported(g, Some(inner)).durabilityUnknown ==> Reported(g, Some(outer)).durabilityUnknown
  {
    if Clean(g, [Item(Some(outer), 0)], 0) {
      CleanInner(g, outer, inner);
      FailsClosed(g, inner);
      FailsClosed(g, outer);
      forall n: nat | n < |g| && Reachable(g, inner, n) ensures Reachable(g, outer, n) {
        ReachThrough(g, outer, inner, n);
      }
    }
  }

  lemma CleanInner(g: Graph, outer: nat, inner: nat)
    requires WellFormed(g) && outer < |g| && inner < |g| && Wraps(g, outer, inner)
    requires Clean(g, [Item(Some(outer), 0)], 0)
    ensures Clean(g, [Item(Some(inner), 0)], 0)
  {
    assert ValidStack(g, [Item(Some(outer), 0)]);
    hide Clean, Children, WellFormed, ValidStack, Visited;
    var kids := Children(g, outer, 1);
    WalkStep(g, [Item(Some(outer), 0)], 0);
    assert [] + kids == kids;
    var i :| 0 <= i < |g[outer].wraps| && g[outer].wraps[i] == Some(inner);
    var seen := CleanNth(g, kids, i, 1);
    CleanAlone(g, kids[i], seen);
  }

  lemma CleanAlone(g: Graph, item: Item, seen: nat)
    requires WellFormed(g) && seen <= MAX_NODES && ValidStack(g, [item]) && Clean(g, [item], seen)
    ensures ValidStack(g, [Item(item.err, 0)]) && Clean(g, [Item(item.err, 0)], 0)
  {
    hide Clean, WellFormed;
    assert Exists(g, [item][0].err);
    CleanShallower(g, [item], seen, [Item(item.err, 0)], 0);
  }

  lemma CleanNth(g: Graph, s: seq<Item>, i: nat, visited: nat) returns (seen: nat)
    requires WellFormed(g) && ValidStack(g, s) && i < |s| && visited <= MAX_NODES && Clean(g, s, visited)
    ensures seen <= MAX_NODES && ValidStack(g, [s[i]]) && Clean(g, [s[i]], seen)
  {
    hide Clean, WellFormed;
    assert s[..i + 1] + s[i + 1..] == s;
    seen := CleanPrefix(g, s[..i + 1], s[i + 1..], visited);
    assert s[..i] + [s[i]] == s[..i + 1];
    CleanTop(g, s[..i], [s[i]], seen);
  }

  // A clean walk finishes the upper part of its stack and goes on with the lower part.
  lemma {:induction false} CleanPrefix(g: Graph, below: seq<Item>, s: seq<Item>, visited: nat) returns (seen: nat)
    requires WellFormed(g) && ValidStack(g, below + s) && visited <= MAX_NODES && Clean(g, below + s, visited)
    ensures visited <= seen <= MAX_NODES && ValidStack(g, below) && Clean(g, below, seen)
    decreases MAX_NODES - visited, |s|
  {
    hide *;
    OnTopOf(g, below, s);
    if s == [] {
      seen := visited;
    } else if visited == MAX_NODES {
      WalkEnds(g, below + s, visited);
      assert false;
    } else {
      var top, rest := s[|s| - 1], s[..|s| - 1];
      WalkStep(g, below + s, visited);
      if top.err.None? {
        seen := CleanPrefix(g, below, rest, visited);
      } else {
        seen := CleanPrefix(g, below, Expand(g, rest, top), visited + 1);
      }
    }
  }

  // ---------- acyclic errors ----------

  // What an acyclic error looks like when every path through it is followed.
  datatype ErrTree = Nil | Err(changed: bool, durabilityUnknown: bool, wraps: seq<ErrTree>)

  ghost predicate Unfolds(g: Graph, e: Option<nat>, t: ErrTree)
    decreases t
  {
    match t
    case Nil => e.None?
    case Err(c, u, ws) =>
      && e.Some? && e.value < |g|
      && g[e.value].changed == c && g[e.value].durabilityUnknown == u && |g[e.value].wraps| == |ws|
      && forall i | 0 <= i < |ws| :: Unfolds(g, g[e.value].wraps[i], ws[i])
  }

  // The recursive OR over the tree.
  ghost predicate Changed(t: ErrTree) {
    t.Err? && (t.changed || exists i | 0 <= i < |t.wraps| :: Changed(t.wraps[i]))
  }

  ghost predicate Unknown(t: ErrTree) {
    t.Err? && (t.durabilityUnknown || exists i | 0 <= i < |t.wraps| :: Unknown(t.wraps[i]))
  }

  // No error in t, whose root sits at depth d, is deeper than the limit.
  ghost predicate WithinDepth(t: ErrTree, d: nat) {
    t.Err? ==> d <= 64 && forall i | 0 <= i < |t.wraps| :: WithinDepth(t.wraps[i], d + 1)
  }

  function Size(t: ErrTree): nat {
    match t case Nil => 0 case Err(_, _, ws) => 1 + SizeAll(ws)
  }

  function SizeAll(ts: seq<ErrTree>): nat {
    if ts == [] then 0 else Size(ts[|ts| - 1]) + SizeAll(ts[..|ts| - 1])
  }

  // The entry the walk pops last is found by always following the first wrapped error.
  ghost predicate LastIsNil(t: ErrTree) {
    t.Nil? || (|t.wraps| > 0 && LastIsNil(t.wraps[0]))
  }

  // Popping ts, top at the end, with v errors already counted: the walk only stops early
  // when it meets an entry with the count exhausted, so only the last entry may be free.
  ghost predicate Fits(ts: seq<ErrTree>, v: nat) {
    ts == [] || v + SizeAll(ts) < 256 || (v + SizeAll(ts) == 256 && !LastIsNil(ts[0]))
  }

  lemma {:induction false} SizeOfConcat(a: seq<ErrTree>, b: seq<ErrTree>)
    ensures SizeAll(a + b) == SizeAll(a) + SizeAll(b)
  {
    if b == [] {
      assert a + b == a;
    } else {
      assert (a + b)[..|a + b| - 1] == a + b[..|b| - 1];
      SizeOfConcat(a, b[..|b| - 1]);
    }
  }

  lemma {:induction false} NotNilMeansCounted(t: ErrTree)
    requires !LastIsNil(t)
    ensures Size(t) > 0
  {
  }

  lemma FirstIsCounted(ts: seq<ErrTree>)
    requires ts != [] && !LastIsNil(ts[0])
    ensures SizeAll(ts) > 0
  {
    assert ts == ts[..1] + ts[1..];
    SizeOfConcat(ts[..1], ts[1..]);
    assert ts[..1] == [ts[0]] && SizeAll([ts[0]]) == Size(ts[0]) + SizeAll([]);
    NotNilMeansCounted(ts[0]);
  }

  // One pop keeps what is left to count.
  lemma FitsAfterPop(rest: seq<ErrTree>, top: ErrTree, v: nat)
    requires v < MAX_NODES
    ensures top.Nil? ==> (Fits(rest + [top], v) <==> Fits(rest, v))
    ensures top.Err? ==> (Fits(rest + [top], v) <==> Fits(rest + top.wraps, v + 1))
  {
    SizeOfConcat(rest, [top]);
    assert SizeAll([top]) == Size(top) + SizeAll([]);
    if top.Err? { SizeOfConcat(rest, top.wraps); }
    if rest != [] {
      assert (rest + [top])[0] == rest[0];
      assert top.Err? ==> (rest + top.wraps)[0] == rest[0];
    } else {
      assert rest + [top] == [top];
      assert top.Err? ==> rest + top.wraps == top.wraps;
    }
  }

  lemma FullStackDoesNotFit(ts: seq<ErrTree>)
    requires ts != []
    ensures !Fits(ts, MAX_NODES)
  {
    if !LastIsNil(ts[0]) { FirstIsCounted(ts); }
  }

  ghost predicate Matches(g: Graph, stack: seq<Item>, ts: seq<ErrTree>) {
    |stack| == |ts| && forall i | 0 <= i < |ts| :: Unfolds(g, stack[i].err, ts[i])
  }

  ghost predicate AllWithinDepth(stack: seq<Item>, ts: seq<ErrTree>)
    requires |stack| == |ts|
  {
    forall i | 0 <= i < |ts| :: WithinDepth(ts[i], stack[i].depth)
  }

  lemma MatchesConcat(g: Graph, a: seq<Item>, b: seq<Item>, ta: seq<ErrTree>, tb: seq<ErrTree>)
    requires Matches(g, a, ta) && Matches(g, b, tb)
    ensures Matches(g, a + b, ta + tb)
    ensures AllWithinDepth(a + b, ta + tb) <==> AllWithinDepth(a, ta) && AllWithinDepth(b, tb)
  {
    hide Unfolds, WithinDepth;
    var s, t := a + b, ta + tb;
    forall i | 0 <= i < |t| ensures Unfolds(g, s[i].err, t[i]) {
      if i < |ta| { assert s[i] == a[i] && t[i] == ta[i]; } else { assert s[i] == b[i - |ta|] && t[i] == tb[i - |ta|]; }
    }
    DepthConcat(a, b, ta, tb);
  }

  lemma DepthConcat(a: seq<Item>, b: seq<Item>, ta: seq<ErrTree>, tb: seq<ErrTree>)
    requires |a| == |ta| && |b| == |tb|
    ensures AllWithinDepth(a + b, ta + tb) <==> AllWithinDepth(a, ta) && AllWithinDepth(b, tb)
  {
    hide WithinDepth;
    var s, t := a + b, ta + tb;
    if AllWithinDepth(s, t) {
      forall i | 0 <= i < |ta| ensures WithinDepth(ta[i], a[i].depth) { assert s[i] == a[i] && t[i] == ta[i]; }
      forall j | 0 <= j < |tb|
        ensures WithinDepth(tb[j], b[j].depth)
      {
        assert s[|ta| + j] == b[j] && t[|ta| + j] == tb[j];
      }
    }
  }

  lemma KidsMatch(g: Graph, top: Item, t: ErrTree)
    requires WellFormed(g) && t.Err? && Unfolds(g, top.err, t)
    ensures Matches(g, Children(g, top.err.value, top.depth + 1), t.wraps)
    ensures WithinDepth(t, top.depth) <==>
              top.depth <= MAX_DEPTH && AllWithinDepth(Children(g, top.err.value, top.depth + 1), t.wraps)
  {
    hide WellFormed;
    var kids := Children(g, top.err.value, top.depth + 1);
    assert forall i | 0 <= i < |kids| :: kids[i].err == g[top.err.value].wraps[i] && kids[i].depth == top.depth + 1;
  }

  lemma PushMatches(g: Graph, rest: seq<Item>, top: Item, ts: seq<ErrTree>, t: ErrTree)
    requires WellFormed(g) && ValidStack(g, rest) && Matches(g, rest, ts) && t.Err? && Unfolds(g, top.err, t)
    ensures var next := Expand(g, rest, top);
            && Matches(g, next, ts + t.wraps)
            && (AllWithinDepth(next, ts + t.wraps) && top.depth <= MAX_DEPTH <==>
                  AllWithinDepth(rest, ts) && WithinDepth(t, top.depth))
  {
    KidsMatch(g, top, t);
    hide Matches, WithinDepth, AllWithinDepth, WellFormed;
    MatchesConcat(g, rest, Children(g, top.err.value, top.depth + 1), ts, t.wraps);
  }

  lemma UnfoldsHead(g: Graph, e: Option<nat>, t: ErrTree)
    requires Unfolds(g, e, t)
    ensures t.Nil? <==> e.None?
    ensures t.Err? ==>
              e.value < |g| && g[e.value].changed == t.changed && g[e.value].durabilityUnknown == t.durabilityUnknown
  {
  }

  lemma PopMatches(g: Graph, stack: seq<Item>, ts: seq<ErrTree>)
    requires Matches(g, stack, ts) && stack != []
    ensures var top, t := stack[|stack| - 1], ts[|ts| - 1];
            && Matches(g, stack[..|stack| - 1], ts[..|ts| - 1]) && Unfolds(g, top.err, t)
            && stack == stack[..|stack| - 1] + [top] && ts == ts[..|ts| - 1] + [t]
  {
    hide Unfolds;
  }

  lemma CleanAtEnd(g: Graph, stack: seq<Item>, ts: seq<ErrTree>, visited: nat)
    requires WellFormed(g) && ValidStack(g, stack) && Matches(g, stack, ts) && (stack == [] || visited == MAX_NODES)
    requires visited <= MAX_NODES
    ensures Clean(g, stack, visited) <==> AllWithinDepth(stack, ts) && Fits(ts, visited)
  {
    if stack != [] { FullStackDoesNotFit(ts); }
  }

  // On a stack of trees: when the walk is clean.
  lemma {:induction false} CleanOnTrees(g: Graph, stack: seq<Item>, ts: seq<ErrTree>, visited: nat)
    requires WellFormed(g) && ValidStack(g, stack) && visited <= MAX_NODES && Matches(g, stack, ts)
    ensures Clean(g, stack, visited) <==> AllWithinDepth(stack, ts) && Fits(ts, visited)
    decreases MAX_NODES - visited, |stack|
  {
    hide *;
    if stack == [] || visited == MAX_NODES {
      CleanAtEnd(g, stack, ts, visited);
    } else {
      PopMatches(g, stack, ts);
      WalkStep(g, stack, visited);
      var top, rest := stack[|stack| - 1], stack[..|stack| - 1];
      var t, trees := ts[|ts| - 1], ts[..|ts| - 1];
      UnfoldsHead(g, top.err, t);
      CleanTreeStep(g, rest, top, trees, t, visited);
      if t.Nil? {
        CleanOnTrees(g, rest, trees, visited);
      } else {
        CleanOnTrees(g, Expand(g, rest, top), trees + t.wraps, visited + 1);
      }
    }
  }

  lemma CleanTreeStep(g: Graph, rest: seq<Item>, top: Item, trees: seq<ErrTree>, t: ErrTree, visited: nat)
    requires WellFormed(g) && ValidStack(g, rest) && visited < MAX_NODES && Matches(g, rest, trees)
    requires Unfolds(g, top.err, t)
    ensures Matches(g, rest + [top], trees + [t])
    ensures t.Nil? ==> (AllWithinDepth(rest + [top], trees + [t]) && Fits(trees + [t], visited) <==>
                          AllWithinDepth(rest, trees) && Fits(trees, visited))
    ensures t.Err? ==> var next := Expand(g, rest, top);
                       && Matches(g, next, trees + t.wraps)
                       && (AllWithinDepth(rest + [top], trees + [t]) && Fits(trees + [t], visited) <==>
                             top.depth <= MAX_DEPTH && AllWithinDepth(next, trees + t.wraps) &&
                               Fits(trees + t.wraps, visited + 1))
  {
    assert Matches(g, [top], [t]) && (AllWithinDepth([top], [t]) <==> WithinDepth(t, top.depth)) by {
      assert [top][0] == top && [t][0] == t;
    }
    hide WellFormed, Matches, AllWithinDepth, Fits;
    MatchesConcat(g, rest, [top], trees, [t]);
    FitsAfterPop(trees, t, visited);
    if t.Err? { PushMatches(g, rest, top, trees, t); }
  }

  ghost predicate AnyTree(ts: seq<ErrTree>, unknown: bool) {
    exists i | 0 <= i < |ts| :: if unknown then Unknown(ts[i]) else Changed(ts[i])
  }

  lemma AnyTreePop(rest: seq<ErrTree>, top: ErrTree, unknown: bool)
    ensures top.Nil? ==> (AnyTree(rest + [top], unknown) <==> AnyTree(rest, unknown))
    ensures top.Err? ==> (AnyTree(rest + [top], unknown) <==>
                            (if unknown then top.durabilityUnknown else top.changed) ||
                              AnyTree(rest + top.wraps, unknown))
  {
    assert (rest + [top])[|rest|] == top;
    assert forall i | 0 <= i < |rest| :: (rest + [top])[i] == rest[i];
    if top.Err? {
      assert forall i | 0 <= i < |rest| :: (rest + top.wraps)[i] == rest[i];
      assert forall i | 0 <= i < |top.wraps| :: (rest + top.wraps)[|rest| + i] == top.wraps[i];
    }
  }

  ghost predicate AnyVisited(g: Graph, nodes: seq<nat>, unknown: bool)
    requires forall i | 0 <= i < |nodes| :: nodes[i] < |g|
  {
    if unknown then AnyUnknown(g, nodes) else AnyChanged(g, nodes)
  }

  lemma AnyVisitedCons(g: Graph, n: nat, s: seq<nat>, unknown: bool)
    requires n < |g| && forall i | 0 <= i < |s| :: s[i] < |g|
    ensures AnyVisited(g, [n] + s, unknown) <==>
              (if unknown then g[n].durabilityUnknown else g[n].changed) || AnyVisited(g, s, unknown)
  {
    assert forall i | 0 <= i < |s| :: ([n] + s)[i + 1] == s[i];
    assert ([n] + s)[0] == n;
  }

  lemma NothingFound(g: Graph, ts: seq<ErrTree>, unknown: bool)
    requires Matches(g, [], ts)
    ensures !AnyVisited(g, [], unknown) && !AnyTree(ts, unknown)
  {
  }

  lemma {:induction false} CleanFindsTheOr(g: Graph, stack: seq<Item>, ts: seq<ErrTree>, visited: nat, unknown: bool)
    requires WellFormed(g) && ValidStack(g, stack) && visited <= MAX_NODES && Matches(g, stack, ts)
    requires Clean(g, stack, visited)
    ensures AnyVisited(g, Visited(g, stack, visited), unknown) <==> AnyTree(ts, unknown)
    decreases MAX_NODES - visited, |stack|
  {
    hide *;
    if stack == [] || visited == MAX_NODES {
      WalkEnds(g, stack, visited);
      NothingFound(g, ts, unknown);
    } else {
      PopMatches(g, stack, ts);
      WalkStep(g, stack, visited);
      var top, rest := stack[|stack| - 1], stack[..|stack| - 1];
      var t, trees := ts[|ts| - 1], ts[..|ts| - 1];
      UnfoldsHead(g, top.err, t);
      AnyTreePop(trees, t, unknown);
      if t.Nil? {
        CleanFindsTheOr(g, rest, trees, visited, unknown);
      } else {
        PushMatches(g, rest, top, trees, t);
        var next := Expand(g, rest, top);
        CleanFindsTheOr(g, next, trees + t.wraps, visited + 1, unknown);
        AnyVisitedCons(g, top.err.value, Visited(g, next, visited + 1), unknown);
      }
    }
  }

  ghost predicate WithinBudget(t: ErrTree) {
    && WithinDepth(t, 0)
    && (Size(t) < 256 || (Size(t) == 256 && !LastIsNil(t)))
  }

  /** Exactly when the budgets suffice on an acyclic error, and then the answer is the
      recursive OR over all it wraps; otherwise both flags are reported set. */
  lemma ExactOnTrees(g: Graph, e: Option<nat>, t: ErrTree)
    requires WellFormed(g) && Exists(g, e) && Unfolds(g, e, t)
    ensures Reported(g, e) == if WithinBudget(t) then Flags(Changed(t), Unknown(t)) else Flags(true, true)
  {
    var stack, ts := [Item(e, 0)], [t];
    assert SizeAll(ts) == Size(t) + SizeAll([]);
    CleanOnTrees(g, stack, ts, 0);
    assert AllWithinDepth(stack, ts) <==> WithinDepth(t, 0);
    if Clean(g, stack, 0) {
      CleanFindsTheOr(g, stack, ts, 0, false);
      CleanFindsTheOr(g, stack, ts, 0, true);
      assert AnyTree(ts, false) <==> Changed(ts[0]);
      assert AnyTree(ts, true) <==> Unknown(ts[0]);
    }
  }

  // An error joining 255 plain errors, the first of which wraps nothing at all (Unwrap
  // returns nil): 256 errors at depth at most 2, none carrying a flag.
  function Wide(): (g: Graph) {
    [ErrNode(false, false, seq(255, i => if i == 0 then Some(1) else Some(2))), ErrNode(false, false, [None]),
      ErrNode(false, false, [])]
  }

  function WideTree(): (t: ErrTree) {
    Err(false, false, seq(255, i => if i == 0 then Err(false, false, [Nil]) else Err(false, false, [])))
  }

  lemma {:induction false} SizeOfPlainErrors(ts: seq<ErrTree>)
    requires forall i | 0 <= i < |ts| :: ts[i].Err? && (ts[i].wraps == [] || ts[i].wraps == [Nil])
    ensures SizeAll(ts) == |ts|
  {
    if ts != [] {
      SizeOfPlainErrors(ts[..|ts| - 1]);
      var t := ts[|ts| - 1];
      assert SizeAll([Nil]) == Size(Nil) + SizeAll([]);
      assert Size(t) == 1;
    }
  }

  /** Staying within 256 errors and depth 64 is not enough: at exactly 256 a trailing nil
      makes the walk report a change that no error records. */
  lemma FullBudgetWithTrailingNil()
    ensures var t := WideTree(); Size(t) == 256 && WithinDepth(t, 0) && !Changed(t) && !Unknown(t)
    ensures WellFormed(Wide()) && Unfolds(Wide(), Some(0), WideTree()) && Reported(Wide(), Some(0)) == Flags(true, true)
  {
    var g, t := Wide(), WideTree();
    SizeOfPlainErrors(t.wraps);
    forall i | 0 <= i < 255 ensures Unfolds(g, g[0].wraps[i], t.wraps[i]) {
      if i == 0 { assert Unfolds(g, g[1].wraps[0], t.wraps[0].wraps[0]); }
    }
    assert LastIsNil(t.wraps[0].wraps[0]) && LastIsNil(t.wraps[0]) && LastIsNil(t);
    assert forall i | 0 <= i < 255 :: !Changed(t.wraps[i]) && !Unknown(t.wraps[i]) && WithinDepth(t.wraps[i], 1);
    ExactOnTrees(g, Some(0), t);
  }

  // ---------- managedChangedMutationError ----------

  // The error that now stands for `err`, in the graph extended with the node it may add.
  ghost function MarkChanged(g: Graph, err: Option<nat>, durabilityUnknown: bool): (r: (Graph, Option<nat>))
    requires WellFormed(g) && Exists(g, err)
  {
    if err.None? then (g, None)
    else
      var was := Reported(g, err);
      if was.changed && (!durabilityUnknown || was.durabilityUnknown) then (g, err)
      else (g + [ErrNode(true, durabilityUnknown || was.durabilityUnknown, [err])], Some(|g|))
  }

  /** The marked error is nil exactly when the error was, is reported as changed, and keeps
      every uncertainty that was known before or is being added. */
  lemma MarkingFailsClosed(g: Graph, err: Option<nat>, durabilityUnknown: bool)
    requires WellFormed(g) && Exists(g, err)
    ensures var (g', e) := MarkChanged(g, err, durabilityUnknown);
            && WellFormed(g') && Exists(g', e) && (e.None? <==> err.None?)
            && (err.Some? ==>
                  && Reported(g', e).changed
                  && (durabilityUnknown || Reported(g, err).durabilityUnknown ==> Reported(g', e).durabilityUnknown))
  {
    var (g', e) := MarkChanged(g, err, durabilityUnknown);
    if err.Some? && e != err {
      var x := ErrNode(true, durabilityUnknown || Reported(g, err).durabilityUnknown, [err]);
      assert g'[|g|] == x && forall n | 0 <= n < |g| :: g'[n] == g[n];
      forall n, i | 0 <= n < |g'| && 0 <= i < |g'[n].wraps| ensures Exists(g', g'[n].wraps[i]) {
        if n < |g| { assert Exists(g, g[n].wraps[i]); }
      }
      assert Path(g', [|g|]);
      FailsClosed(g', |g|);
    }
  }
}
