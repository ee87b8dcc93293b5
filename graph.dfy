/**
 * The duplicate graph of the diagnostics: adjacency sets keyed by question id
 * (generation-client.tsx:85, 87-94), reachability in it, and the stack-based
 * traversal that collects one connected component (generation-client.tsx:207-228).
 */
module Graph {

  /** `Map<string, Set<string>>`: a node without an entry has no neighbours. */
  type Adjacency = map<string, set<string>>

  /** `adjacency.get(id)`, with a missing entry read as no neighbours. */
  function Neighbors(adj: Adjacency, x: string): set<string> {
    if x in adj then adj[x] else {}
  }

  /** `ensureEdge`: records `target` as a neighbour of `source`, creating the entry
      when it is missing, and does nothing for a self-edge. */
  function EnsureEdge(adj: Adjacency, source: string, target: string): (r: Adjacency)
    ensures source == target ==> r == adj
    ensures source != target ==> r.Keys == adj.Keys + {source}
    ensures source != target ==> Neighbors(r, source) == Neighbors(adj, source) + {target}
    ensures forall x :: x != source ==> Neighbors(r, x) == Neighbors(adj, x)
  {
    if source == target then adj
    else adj[source := Neighbors(adj, source) + {target}]
  }

  /** No node is its own neighbour. */
  predicate NoSelfLoops(adj: Adjacency) {
    forall x :: x in adj ==> x !in adj[x]
  }

  /** `ensureEdge` never creates a self-loop. */
  lemma EnsureEdgeNoSelfLoops(adj: Adjacency, source: string, target: string)
    requires NoSelfLoops(adj)
    ensures NoSelfLoops(EnsureEdge(adj, source, target))
  {
    var r := EnsureEdge(adj, source, target);
    forall x | x in r ensures x !in r[x] {
      assert r[x] == Neighbors(r, x);
    }
  }

  /** Adding an edge that is already there leaves the adjacency unchanged. */
  lemma EnsureEdgeExisting(adj: Adjacency, source: string, target: string)
    requires target in Neighbors(adj, source)
    ensures EnsureEdge(adj, source, target) == adj
  {
    if source != target {
      assert Neighbors(adj, source) + {target} == adj[source];
    }
  }

  /** Every entry names nodes of `nodes`, and lists only nodes of `nodes`. */
  predicate Within(adj: Adjacency, nodes: set<string>) {
    forall x :: x in adj ==> x in nodes && adj[x] <= nodes
  }

  /** Every edge goes both ways. */
  ghost predicate Symmetric(adj: Adjacency) {
    forall x, y :: x in adj && y in adj[x] ==> x in Neighbors(adj, y)
  }

  /** A walk along edges: each node is a neighbour of the one before it. */
  ghost predicate IsPath(adj: Adjacency, p: seq<string>) {
    |p| >= 1 && forall i, j :: 0 <= i < j < |p| && j == i + 1 ==> p[j] in Neighbors(adj, p[i])
  }

  ghost predicate Reachable(adj: Adjacency, a: string, b: string) {
    exists p :: IsPath(adj, p) && p[0] == a && p[|p| - 1] == b
  }

  /** No edge leaves `s`. */
  ghost predicate Closed(adj: Adjacency, s: set<string>) {
    forall x :: x in s ==> Neighbors(adj, x) <= s
  }

  /** The connected component of `a`: the nodes reachable from it. */
  ghost function Component(adj: Adjacency, nodes: set<string>, a: string): set<string> {
    set x | x in nodes && Reachable(adj, a, x)
  }

  lemma ReachableRefl(adj: Adjacency, a: string)
    ensures Reachable(adj, a, a)
  {
    assert IsPath(adj, [a]);
  }

  lemma ReachableStep(adj: Adjacency, a: string, b: string, c: string)
    requires Reachable(adj, a, b) && c in Neighbors(adj, b)
    ensures Reachable(adj, a, c)
  {
    var p :| IsPath(adj, p) && p[0] == a && p[|p| - 1] == b;
    var q := p + [c];
    forall i, j | 0 <= i < j < |q| && j == i + 1 ensures q[j] in Neighbors(adj, q[i]) {
      if j < |p| {
        assert q[i] == p[i] && q[j] == p[j];
      }
    }
    assert IsPath(adj, q) && q[0] == a && q[|q| - 1] == c;
  }

  lemma ReachableTrans(adj: Adjacency, a: string, b: string, c: string)
    requires Reachable(adj, a, b) && Reachable(adj, b, c)
    ensures Reachable(adj, a, c)
  {
    var p :| IsPath(adj, p) && p[0] == a && p[|p| - 1] == b;
    var q :| IsPath(adj, q) && q[0] == b && q[|q| - 1] == c;
    var r := p + q[1..];
    forall i, j | 0 <= i < j < |r| && j == i + 1 ensures r[j] in Neighbors(adj, r[i]) {
      if j < |p| {
        assert r[i] == p[i] && r[j] == p[j];
      } else if i == |p| - 1 {
        assert r[i] == q[0] && r[j] == q[1];
      } else {
        assert r[i] == q[i - |p| + 1] && r[j] == q[j - |p| + 1];
      }
    }
    assert IsPath(adj, r) && r[0] == a && r[|r| - 1] == c;
  }

  /** In a symmetric graph a walk can be taken backwards. */
  lemma ReachableSym(adj: Adjacency, a: string, b: string)
    requires Symmetric(adj) && Reachable(adj, a, b)
    ensures Reachable(adj, b, a)
  {
    var p :| IsPath(adj, p) && p[0] == a && p[|p| - 1] == b;
    var n := |p|;
    var q := seq(n, k requires 0 <= k < n => p[n - 1 - k]);
    forall i, j | 0 <= i < j < n && j == i + 1 ensures q[j] in Neighbors(adj, q[i]) {
      var x, y := p[n - 1 - j], p[n - 1 - i];
      assert y in Neighbors(adj, x);
      assert x in adj;
    }
    assert IsPath(adj, q) && q[0] == b && q[n - 1] == a;
  }

  /** A set no edge leaves holds everything reachable from its members. */
  lemma ClosedContainsReachable(adj: Adjacency, s: set<string>, a: string, b: string)
    requires Closed(adj, s) && a in s && Reachable(adj, a, b)
    ensures b in s
  {
    var p :| IsPath(adj, p) && p[0] == a && p[|p| - 1] == b;
    var k := 0;
    while k < |p| - 1
      invariant 0 <= k < |p| && p[k] in s
    {
      assert p[k + 1] in Neighbors(adj, p[k]);
      k := k + 1;
    }
  }

  /** A node with an edge reaches only nodes of `nodes`. */
  lemma ReachableWithin(adj: Adjacency, nodes: set<string>, a: string, b: string)
    requires Within(adj, nodes) && a in nodes && Reachable(adj, a, b)
    ensures b in nodes
  {
    ClosedContainsReachable(adj, nodes, a, b);
  }

  /** Nodes in one component have the same component. */
  lemma SameComponent(adj: Adjacency, nodes: set<string>, a: string, b: string)
    requires Symmetric(adj) && Reachable(adj, a, b)
    ensures Component(adj, nodes, a) == Component(adj, nodes, b)
  {
    ReachableSym(adj, a, b);
    forall x | x in Component(adj, nodes, a) ensures x in Component(adj, nodes, b) {
      ReachableTrans(adj, b, a, x);
    }
    forall x | x in Component(adj, nodes, b) ensures x in Component(adj, nodes, a) {
      ReachableTrans(adj, a, b, x);
    }
  }

  /** In a symmetric graph, a closed set is disjoint from the component of a node outside it. */
  lemma ComponentAvoidsClosed(adj: Adjacency, nodes: set<string>, s: set<string>, a: string)
    requires Symmetric(adj) && Closed(adj, s) && a !in s
    ensures Component(adj, nodes, a) !! s
  {
    forall x | x in Component(adj, nodes, a) ensures x !in s {
      if x in s {
        ReachableSym(adj, a, x);
        ClosedContainsReachable(adj, s, x, a);
      }
    }
  }

  /** The nodes on a stack. */
  function Elements(stack: seq<string>): (r: set<string>)
    ensures forall y :: y in r <==> y in stack
  {
    set y | y in stack
  }

  /** `neighbors.forEach(n => { if (!visited.has(n)) stack.push(n); })`: pushes the
      neighbours not yet visited, in the set's iteration order (any order here). */
  method PushUnvisited(neighbors: set<string>, visited: set<string>, stack: seq<string>)
    returns (out: seq<string>)
    ensures |out| >= |stack| && out[..|stack|] == stack
    ensures Elements(out[|stack|..]) == neighbors - visited
  {
    out := stack;
    var pending := neighbors;
    while pending != {}
      invariant pending <= neighbors
      invariant |out| >= |stack| && out[..|stack|] == stack
      invariant Elements(out[|stack|..]) == (neighbors - pending) - visited
      decreases |pending|
    {
      var neighbor :| neighbor in pending;
      if neighbor !in visited {
        assert out[|stack|..] + [neighbor] == (out + [neighbor])[|stack|..];
        out := out + [neighbor];
      }
      pending := pending - {neighbor};
    }
  }

  /** Every neighbour of a node of `s` is in `covered`. */
  ghost predicate Covered(adj: Adjacency, s: set<string>, covered: set<string>) {
    forall x :: x in s ==> Neighbors(adj, x) <= covered
  }

  lemma CoveredGrow(adj: Adjacency, s: set<string>, c1: set<string>, x: string, c2: set<string>)
    requires Covered(adj, s, c1) && c1 <= c2 && Neighbors(adj, x) <= c2
    ensures Covered(adj, s + {x}, c2)
  {
  }

  /** What holds between steps of the walk from `start`: the visited set is the old
      one plus the members collected so far, everything collected or stacked is in the
      component of `start`, `start` is collected or stacked, and every neighbour of a
      member is visited or stacked. */
  ghost predicate Walk(adj: Adjacency, nodes: set<string>, visited: set<string>, start: string,
                       members: set<string>, visitedNow: set<string>, stack: seq<string>)
  {
    && visitedNow == visited + members && visited !! members && start !in visited
    && members <= Component(adj, nodes, start) && Elements(stack) <= Component(adj, nodes, start)
    && (start in members || start in stack)
    && Covered(adj, members, visitedNow + Elements(stack))
  }

  lemma WalkBegins(adj: Adjacency, nodes: set<string>, visited: set<string>, start: string)
    requires start in nodes && start !in visited
    ensures Walk(adj, nodes, visited, start, {}, visited, [start])
  {
    ReachableRefl(adj, start);
  }

  /** Popping a node that is already visited keeps the walk's invariant. */
  lemma WalkSkips(adj: Adjacency, nodes: set<string>, visited: set<string>, start: string,
                  members: set<string>, visitedNow: set<string>, full: seq<string>,
                  stack: seq<string>, current: string)
    requires Walk(adj, nodes, visited, start, members, visitedNow, full) && full == stack + [current]
    requires current in visitedNow
    ensures Walk(adj, nodes, visited, start, members, visitedNow, stack)
  {
    assert Elements(stack + [current]) == Elements(stack) + {current};
  }

  /** Popping an unvisited node, visiting it and pushing its unvisited neighbours keeps
      the walk's invariant. */
  lemma WalkVisits(adj: Adjacency, nodes: set<string>, visited: set<string>, start: string,
                   members: set<string>, visitedNow: set<string>, full: seq<string>,
                   stack: seq<string>, current: string, pushed: seq<string>)
    requires Within(adj, nodes) && start in nodes
    requires Walk(adj, nodes, visited, start, members, visitedNow, full) && full == stack + [current]
    requires current !in visitedNow
    requires Elements(pushed) == Neighbors(adj, current) - (visitedNow + {current})
    ensures current in nodes
    ensures Walk(adj, nodes, visited, start, members + {current}, visitedNow + {current}, stack + pushed)
  {
    var component := Component(adj, nodes, start);
    assert Elements(stack + [current]) == Elements(stack) + {current};
    assert Elements(stack + pushed) == Elements(stack) + Elements(pushed);
    forall y | y in Neighbors(adj, current) ensures y in component {
      ReachableStep(adj, start, current, y);
      ReachableWithin(adj, nodes, start, y);
    }
    CoveredGrow(adj, members, visitedNow + Elements(stack + [current]), current,
                visitedNow + {current} + Elements(stack + pushed));
  }

  /** Once the stack is empty the walk holds the whole component of `start`. */
  lemma WalkEnds(adj: Adjacency, nodes: set<string>, visited: set<string>, start: string,
                 members: set<string>, visitedNow: set<string>)
    requires Symmetric(adj) && Closed(adj, visited) && start !in visited
    requires Walk(adj, nodes, visited, start, members, visitedNow, [])
    ensures members == Component(adj, nodes, start)
    ensures Closed(adj, visitedNow)
  {
    assert visitedNow + Elements([]) == visitedNow;
    assert Closed(adj, visitedNow);
    ComponentAvoidsClosed(adj, nodes, visited, start);
    forall x | x in Component(adj, nodes, start) ensures x in members {
      ClosedContainsReachable(adj, visitedNow, start, x);
    }
  }

  /** `traverseCluster`: a depth-first walk from `start` with an explicit stack,
      skipping nodes already in `visited` (which it shares with earlier walks) and
      returning the nodes it visits.  When the nodes visited before form a closed
      set and `start` is not among them, the walk collects exactly the connected
      component of `start`, and the visited set stays closed. */
  method TraverseCluster(adj: Adjacency, ghost nodes: set<string>, visited: set<string>, start: string)
    returns (members: set<string>, visitedOut: set<string>)
    requires Within(adj, nodes) && Symmetric(adj)
    requires start in nodes && start !in visited && Closed(adj, visited)
    ensures members == Component(adj, nodes, start)
    ensures visitedOut == visited + members
    ensures Closed(adj, visitedOut)
  {
    var stack := [start];
    members := {};
    visitedOut := visited;
    WalkBegins(adj, nodes, visited, start);
    while |stack| > 0
      invariant Walk(adj, nodes, visited, start, members, visitedOut, stack)
      decreases nodes - visitedOut, |stack|
    {
      var current := stack[|stack| - 1];
      ghost var full := stack;
      stack := stack[..|stack| - 1];
      assert full == stack + [current];
      if current in visitedOut {
        WalkSkips(adj, nodes, visited, start, members, visitedOut, full, stack, current);
        continue;
      }
      var pushedOnto := PushUnvisited(Neighbors(adj, current), visitedOut + {current}, stack);
      WalkVisits(adj, nodes, visited, start, members, visitedOut, full, stack, current, pushedOnto[|stack|..]);
      assert pushedOnto == stack + pushedOnto[|stack|..];
      assert nodes - (visitedOut + {current}) < nodes - visitedOut;
      visitedOut := visitedOut + {current};
      members := members + {current};
      stack := pushedOnto;
    }
    WalkEnds(adj, nodes, visited, start, members, visitedOut);
  }
}
