/**
 * The grammar type-dependency graph of bash_ts_grammar.py: a registry of
 * type nodes, the insertion-ordered edge list, the depth-first cycle detector
 * and the edge-list rendering.
 *
 * A TNode is equal to another exactly when their type names are equal, and
 * it hashes by its name, so a node is modelled by its name and the registry
 * by a map from a name to the names of its subtypes, in the order they were
 * added. The `order` sequence keeps the first-insertion order of the
 * registry's keys, which is the order in which a Python dict yields them.
 */
module GrammarGraph {

  /** DEdge: `source` may directly contain a value of type `target`. */
  datatype Edge = Edge(source: string, target: string)

  /** The abstract value of a Graph: its node registry, the first-insertion
      order of the registry's keys, and its edge records in insertion order. */
  datatype Registry = Registry(nodes: map<string, seq<string>>, order: seq<string>, edges: seq<Edge>)

  const EmptyRegistry := Registry(map[], [], [])

  predicate NoDup<T(==)>(s: seq<T>) {
    forall i, j :: 0 <= i < j < |s| ==> s[i] != s[j]
  }

  /** The targets of the edges that leave `name`, in edge order. */
  function Targets(edges: seq<Edge>, name: string): seq<string> {
    if edges == [] then []
    else
      var last := edges[|edges| - 1];
      Targets(edges[..|edges| - 1], name) + (if last.source == name then [last.target] else [])
  }

  /** The registry invariant: the key order lists every key once, no edge
      dangles, and each node's subtypes are exactly the targets of its
      outgoing edges, in edge order. */
  ghost predicate WellFormed(g: Registry) {
    && NoDup(g.order)
    && (forall n :: n in g.nodes <==> n in g.order)
    && (forall e :: e in g.edges ==> e.source in g.nodes && e.target in g.nodes)
    && (forall n :: n in g.nodes ==> g.nodes[n] == Targets(g.edges, n))
  }

  /** No dangling references: every subtype of a registered node is registered. */
  ghost predicate Closed(adj: map<string, seq<string>>) {
    forall n, t :: n in adj && t in adj[n] ==> t in adj
  }

  /** The subtypes registered for `name`, or none when it is not registered. */
  function Lookup(g: Registry, name: string): seq<string> {
    if name in g.nodes then g.nodes[name] else []
  }

  /** Graph.add_node: get-or-create. */
  function WithNode(g: Registry, name: string): Registry {
    if name in g.nodes then g
    else Registry(g.nodes[name := []], g.order + [name], g.edges)
  }

  /** Graph.add_edge: get-or-create both ends, append the target to the
      source's subtypes, append the edge record. */
  function WithEdge(g: Registry, from: string, to: string): Registry {
    var h := WithNode(WithNode(g, from), to);
    Registry(h.nodes[from := h.nodes[from] + [to]], h.order, h.edges + [Edge(from, to)])
  }

  lemma AddNodeGetOrCreate(g: Registry, name: string)
    ensures name in WithNode(g, name).nodes
    ensures WithNode(WithNode(g, name), name) == WithNode(g, name)
    ensures name in g.nodes ==> WithNode(g, name) == g
    ensures name !in g.nodes ==>
              && |WithNode(g, name).nodes| == |g.nodes| + 1
              && WithNode(g, name).nodes[name] == []
              && WithNode(g, name).order == g.order + [name]
    ensures forall n :: n in g.nodes ==> n in WithNode(g, name).nodes && WithNode(g, name).nodes[n] == g.nodes[n]
    ensures WithNode(g, name).edges == g.edges
  {
  }

  lemma AddNodePreservesWellFormed(g: Registry, name: string)
    requires WellFormed(g)
    ensures WellFormed(WithNode(g, name))
  {
    if name !in g.nodes {
      var r := WithNode(g, name);
      if Targets(g.edges, name) != [] {
        TargetsHaveEdges(g.edges, name);
        assert Edge(name, Targets(g.edges, name)[0]) in g.edges;
        assert false;
      }
      forall i, j | 0 <= i < j < |r.order| ensures r.order[i] != r.order[j] {
        if j == |g.order| {
          assert r.order[i] == g.order[i];
        }
      }
    }
  }

  /** Every target of `name` comes from an edge record that leaves `name`. */
  lemma {:induction false} TargetsHaveEdges(edges: seq<Edge>, name: string)
    ensures forall t :: t in Targets(edges, name) ==> Edge(name, t) in edges
  {
    if edges != [] {
      var prefix := edges[..|edges| - 1];
      TargetsHaveEdges(prefix, name);
      assert edges == prefix + [edges[|edges| - 1]];
    }
  }

  /** Appending an edge extends the targets of its source only. */
  lemma TargetsAppend(edges: seq<Edge>, e: Edge, name: string)
    ensures Targets(edges + [e], name) == Targets(edges, name) + (if e.source == name then [e.target] else [])
  {
    assert (edges + [e])[..|edges|] == edges;
  }

  lemma AddEdgeEffect(g: Registry, from: string, to: string)
    ensures from in WithEdge(g, from, to).nodes && to in WithEdge(g, from, to).nodes
    ensures WithEdge(g, from, to).nodes[from] == Lookup(g, from) + [to]
    ensures forall n :: n in WithEdge(g, from, to).nodes && n != from ==>
              WithEdge(g, from, to).nodes[n] == Lookup(g, n)
    ensures WithEdge(g, from, to).nodes.Keys == g.nodes.Keys + {from, to}
    ensures WithEdge(g, from, to).edges == g.edges + [Edge(from, to)]
    ensures WithEdge(g, from, to).order
            == g.order + (if from in g.nodes then [] else [from]) + (if to in g.nodes || to == from then [] else [to])
  {
  }

  lemma AddEdgePreservesWellFormed(g: Registry, from: string, to: string)
    requires WellFormed(g)
    ensures WellFormed(WithEdge(g, from, to))
  {
    var h1 := WithNode(g, from);
    AddNodePreservesWellFormed(g, from);
    var h := WithNode(h1, to);
    AddNodePreservesWellFormed(h1, to);
    var r := WithEdge(g, from, to);
    assert r.order == h.order && r.nodes.Keys == h.nodes.Keys;
    forall n | n in r.nodes ensures r.nodes[n] == Targets(r.edges, n) {
      TargetsAppend(h.edges, Edge(from, to), n);
    }
  }

  /** Parallel edges are kept: adding the same edge twice leaves two records
      and lists the target twice. */
  lemma ParallelEdgesKept(g: Registry, from: string, to: string)
    ensures WithEdge(WithEdge(g, from, to), from, to).edges == g.edges + [Edge(from, to), Edge(from, to)]
    ensures WithEdge(WithEdge(g, from, to), from, to).nodes[from] == Lookup(g, from) + [to, to]
  {
    var once := WithEdge(g, from, to);
    AddEdgeEffect(g, from, to);
    AddEdgeEffect(once, from, to);
    assert Lookup(once, from) == Lookup(g, from) + [to];
  }

  lemma WellFormedClosed(g: Registry)
    requires WellFormed(g)
    ensures Closed(g.nodes)
  {
    forall n, t | n in g.nodes && t in g.nodes[n] ensures t in g.nodes {
      TargetsHaveEdges(g.edges, n);
      assert Edge(n, t) in g.edges;
    }
  }

  // ---------------------------------------------------------------------
  // Cycles

  /** `w` follows subtype edges forwards: each element lists the next one
      among its subtypes. */
  ghost predicate IsWalk(adj: map<string, seq<string>>, w: seq<string>) {
    forall i :: 0 <= i < |w| - 1 ==> w[i] in adj && w[i + 1] in adj[w[i]]
  }

  /** The subtype graph has no closed walk. */
  ghost predicate Acyclic(adj: map<string, seq<string>>) {
    forall w :: |w| >= 2 && w[0] == w[|w| - 1] ==> !IsWalk(adj, w)
  }

  /** `p` is built child first: each element is a subtype of the next one. */
  ghost predicate LinksUp(adj: map<string, seq<string>>, p: seq<string>) {
    forall i :: 1 <= i < |p| ==> p[i] in adj && p[i - 1] in adj[p[i]]
  }

  /** The shape of every cycle the detector records. */
  ghost predicate IsRecordedCycle(adj: map<string, seq<string>>, c: seq<string>) {
    |c| >= 2 && c[0] == c[|c| - 1] && LinksUp(adj, c)
  }

  function Reverse<T>(s: seq<T>): (r: seq<T>)
    ensures |r| == |s|
    ensures forall i :: 0 <= i < |s| ==> r[i] == s[|s| - 1 - i]
  {
    if s == [] then [] else Reverse(s[1..]) + [s[0]]
  }

  /** Read backwards, a recorded cycle is a closed walk of the subtype graph. */
  lemma RecordedCycleIsClosedWalk(adj: map<string, seq<string>>, c: seq<string>)
    requires IsRecordedCycle(adj, c)
    ensures |Reverse(c)| >= 2 && Reverse(c)[0] == Reverse(c)[|c| - 1]
    ensures IsWalk(adj, Reverse(c))
  {
    var w := Reverse(c);
    forall i | 0 <= i < |w| - 1 ensures w[i] in adj && w[i + 1] in adj[w[i]] {
      var k := |c| - 2 - i;
      assert w[i] == c[k + 1] && w[i + 1] == c[k];
    }
  }

  /** An acyclic subtype graph admits no recorded cycle. */
  lemma AcyclicHasNoRecordedCycle(adj: map<string, seq<string>>, c: seq<string>)
    requires Acyclic(adj)
    ensures !IsRecordedCycle(adj, c)
  {
    if IsRecordedCycle(adj, c) {
      RecordedCycleIsClosedWalk(adj, c);
    }
  }

  /** The expansion trace lists exactly the visited nodes, each once. */
  ghost predicate Enumerates(trace: seq<string>, visited: set<string>) {
    NoDup(trace) && forall n :: n in trace <==> n in visited
  }

  /** The position of the first `x` in `s`. */
  function FirstIndex<T(==)>(s: seq<T>, x: T): (r: nat)
    requires x in s
    ensures r < |s| && s[r] == x && x !in s[..r]
  {
    if s[0] == x then 0
    else
      var r := 1 + FirstIndex(s[1..], x);
      assert s[..r] == [s[0]] + s[1..][..r - 1];
      r
  }

  /** `finished` lists registered nodes such that every subtype of each one
      is listed before it: a finishing order of a depth-first search. */
  ghost predicate Ranked(adj: map<string, seq<string>>, finished: seq<string>) {
    forall i :: 0 <= i < |finished| ==>
      finished[i] in adj && forall t :: t in adj[finished[i]] ==> t in finished[..i]
  }

  /** The state of a search that has met no stack hit yet: every visited
      node is on the stack (the current path) or finished. */
  ghost predicate Finished(adj: map<string, seq<string>>, visited: set<string>, stack: set<string>,
                           finished: seq<string>) {
    && (forall n :: n in visited <==> n in stack || n in finished)
    && Ranked(adj, finished)
  }

  /** Along a walk, each step goes to a node finished strictly earlier. */
  lemma {:induction false} WalkRankDecreases(adj: map<string, seq<string>>, finished: seq<string>,
                                             w: seq<string>, k: nat)
    requires Ranked(adj, finished) && forall n :: n in adj ==> n in finished
    requires IsWalk(adj, w) && 1 <= k < |w|
    ensures w[0] in finished && w[k] in finished
    ensures FirstIndex(finished, w[k]) < FirstIndex(finished, w[0])
  {
    var u, v := w[k - 1], w[k];
    assert u in adj && v in adj[u];
    var iu := FirstIndex(finished, u);
    assert v in finished[..iu];
    var j :| 0 <= j < iu && finished[j] == v;
    if k > 1 {
      WalkRankDecreases(adj, finished, w, k - 1);
    }
  }

  /** A finishing order of all registered nodes rules out every closed walk. */
  lemma RankedAcyclic(adj: map<string, seq<string>>, finished: seq<string>)
    requires Ranked(adj, finished) && forall n :: n in adj ==> n in finished
    ensures Acyclic(adj)
  {
    forall w | |w| >= 2 && w[0] == w[|w| - 1] ensures !IsWalk(adj, w) {
      if IsWalk(adj, w) {
        WalkRankDecreases(adj, finished, w, |w| - 1);
      }
    }
  }

  /** The state detect_cycles shares with visit: the visited nodes, the
      nodes on the stack and the cycles recorded so far. */
  datatype Search = Search(visited: set<string>, stack: set<string>, cycles: seq<seq<string>>)

  /** `visit(node)`: the fragment it returns and the state after it. */
  function VisitFrom(adj: map<string, seq<string>>, node: string, s: Search): (r: (seq<string>, Search))
    requires Closed(adj) && node in adj && s.visited <= adj.Keys
    ensures s.visited <= r.1.visited <= adj.Keys
    decreases adj.Keys - s.visited, 0
  {
    if node in s.stack then ([node], s)
    else if node in s.visited then ([], s)
    else ExploreFrom(adj, node, 0, Search(s.visited + {node}, s.stack + {node}, s.cycles))
  }

  /** The loop of `visit(node)` over the subtypes of `node`, from the `i`-th on. */
  function ExploreFrom(adj: map<string, seq<string>>, node: string, i: nat, s: Search): (r: (seq<string>, Search))
    requires Closed(adj) && node in adj && i <= |adj[node]| && s.visited <= adj.Keys
    ensures s.visited <= r.1.visited <= adj.Keys
    decreases adj.Keys - s.visited, 1, |adj[node]| - i
  {
    if i == |adj[node]| then ([], Search(s.visited, s.stack - {node}, s.cycles))
    else
      var (fragment, s') := VisitFrom(adj, adj[node][i], s);
      if fragment == [] then ExploreFrom(adj, node, i + 1, s')
      else
        var cycle := fragment + [node];
        if cycle[0] == node then ([], Search(s'.visited, s'.stack, s'.cycles + [cycle]))
        else (cycle, s')
  }

  /** The loop of detect_cycles: `visit` of each node of `order`, in order,
      from an empty state. */
  function SearchAll(adj: map<string, seq<string>>, order: seq<string>): (s: Search)
    requires Closed(adj) && forall n :: n in order ==> n in adj
    ensures s.visited <= adj.Keys
  {
    if order == [] then Search({}, {}, [])
    else VisitFrom(adj, order[|order| - 1], SearchAll(adj, order[..|order| - 1])).1
  }

  /** The cycles detect_cycles returns for a registry. */
  function Detected(g: Registry): seq<seq<string>>
    requires WellFormed(g)
  {
    WellFormedClosed(g);
    SearchAll(g.nodes, g.order).cycles
  }

  /** The search only moves forward: visited nodes stay visited, recorded
      cycles stay recorded, and each cycle recorded since `s` has the
      recorded-cycle shape and starts at a node outside `base`. */
  ghost predicate Extends(adj: map<string, seq<string>>, s: Search, t: Search, base: set<string>) {
    && s.visited <= t.visited
    && |s.cycles| <= |t.cycles| && t.cycles[..|s.cycles|] == s.cycles
    && forall i :: |s.cycles| <= i < |t.cycles| ==>
         IsRecordedCycle(adj, t.cycles[i]) && t.cycles[i][0] in t.visited - base
  }

  /** The last cycle recorded between `s` and `t` starts (and closes) at `node`. */
  ghost predicate ClosedAt(s: Search, t: Search, node: string) {
    |t.cycles| > |s.cycles| && t.cycles[|t.cycles| - 1] != [] && t.cycles[|t.cycles| - 1][0] == node
  }

  lemma ExtendsTrans(adj: map<string, seq<string>>, s: Search, m: Search, t: Search,
                     b1: set<string>, b2: set<string>, b: set<string>)
    requires Extends(adj, s, m, b1) && Extends(adj, m, t, b2) && b <= b1 && b <= b2
    ensures Extends(adj, s, t, b)
  {
    forall i | |s.cycles| <= i < |t.cycles|
      ensures IsRecordedCycle(adj, t.cycles[i]) && t.cycles[i][0] in t.visited - b
    {
      if i < |m.cycles| {
        assert t.cycles[i] == t.cycles[..|m.cycles|][i];
      }
    }
    assert t.cycles[..|s.cycles|] == t.cycles[..|m.cycles|][..|s.cycles|];
  }

  /**
   * What one `visit(node)` does: visited nodes, stack entries and recorded
   * cycles only accumulate; every new cycle is closed, links child to
   * parent and starts at a node first visited by this call; a returned
   * fragment ends at `node`. A node on the stack returns `[node]` and a
   * visited one returns nothing, both changing nothing. A fresh node stays
   * on the stack exactly when it returns early: with a fragment handed
   * upwards, or after recording a cycle that closes at it.
   */
  lemma {:induction false} VisitShape(adj: map<string, seq<string>>, node: string, s: Search)
    requires Closed(adj) && node in adj && s.visited <= adj.Keys && s.stack <= s.visited
    ensures var (fragment, t) := VisitFrom(adj, node, s);
      && Extends(adj, s, t, s.visited)
      && s.stack <= t.stack <= t.visited && node in t.visited
      && (fragment != [] ==> LinksUp(adj, fragment) && fragment[|fragment| - 1] == node)
      && (node in s.stack ==> fragment == [node] && t == s)
      && (node !in s.stack && node in s.visited ==> fragment == [] && t == s)
      && (node !in s.visited ==> (node in t.stack <==> fragment != [] || ClosedAt(s, t, node)))
    decreases adj.Keys - s.visited, 0
  {
    if node !in s.visited {
      ExploreShape(adj, node, 0, Search(s.visited + {node}, s.stack + {node}, s.cycles));
    }
  }

  /** The loop of `visit(node)` from its `i`-th subtype, with `node` on the stack. */
  lemma {:induction false} ExploreShape(adj: map<string, seq<string>>, node: string, i: nat, s: Search)
    requires Closed(adj) && node in adj && i <= |adj[node]| && s.visited <= adj.Keys && s.stack <= s.visited
    requires node in s.stack
    ensures var (fragment, t) := ExploreFrom(adj, node, i, s);
      && Extends(adj, s, t, s.visited - {node})
      && s.stack - {node} <= t.stack <= t.visited
      && (fragment != [] ==> LinksUp(adj, fragment) && fragment[|fragment| - 1] == node)
      && (node in t.stack <==> fragment != [] || ClosedAt(s, t, node))
    decreases adj.Keys - s.visited, 1, |adj[node]| - i
  {
    if i < |adj[node]| {
      var child := adj[node][i];
      var (fragment, s') := VisitFrom(adj, child, s);
      VisitShape(adj, child, s);
      if fragment == [] {
        ExploreShape(adj, node, i + 1, s');
        var t := ExploreFrom(adj, node, i + 1, s').1;
        ExtendsTrans(adj, s, s', t, s.visited, s'.visited - {node}, s.visited - {node});
        if ClosedAt(s, t, node) && |t.cycles| == |s'.cycles| {
          assert t.cycles[|t.cycles| - 1] == s'.cycles[|t.cycles| - 1];
        }
      } else {
        var cycle := fragment + [node];
        assert LinksUp(adj, cycle) by {
          forall k | 1 <= k < |cycle| ensures cycle[k] in adj && cycle[k - 1] in adj[cycle[k]] {
            if k < |fragment| {
              assert cycle[k] == fragment[k] && cycle[k - 1] == fragment[k - 1];
            }
          }
        }
        if cycle[0] == node {
          var t := Search(s'.visited, s'.stack, s'.cycles + [cycle]);
          assert t.cycles[..|s'.cycles|] == s'.cycles;
          ExtendsTrans(adj, s, s', t, s.visited, s'.visited - {node}, s.visited - {node});
        }
      }
    }
  }

  /** A type that lists itself as a subtype always returns early from its
      `visit`, so it stays on the stack. */
  lemma VisitSelfListed(adj: map<string, seq<string>>, node: string, s: Search)
    requires Closed(adj) && node in adj && s.visited <= adj.Keys && s.stack <= s.visited
    requires node !in s.visited && node in adj[node]
    ensures node in VisitFrom(adj, node, s).1.stack
  {
    ExploreSelfListed(adj, node, 0, Search(s.visited + {node}, s.stack + {node}, s.cycles));
  }

  lemma {:induction false} ExploreSelfListed(adj: map<string, seq<string>>, node: string, i: nat, s: Search)
    requires Closed(adj) && node in adj && s.visited <= adj.Keys && s.stack <= s.visited
    requires node in s.stack && node in adj[node] && i <= FirstIndex(adj[node], node)
    ensures node in ExploreFrom(adj, node, i, s).1.stack
    decreases FirstIndex(adj[node], node) - i
  {
    var child := adj[node][i];
    VisitShape(adj, child, s);
    var (fragment, s') := VisitFrom(adj, child, s);
    if fragment == [] {
      ExploreSelfListed(adj, node, i + 1, s');
    }
  }

  /** When every subtype listed before its own entry is already finished, a
      fresh type that lists itself records exactly `[node, node]`. */
  lemma VisitSelfLoop(adj: map<string, seq<string>>, node: string, s: Search)
    requires Closed(adj) && node in adj && s.visited <= adj.Keys && s.stack <= s.visited
    requires node !in s.visited && node in adj[node]
    requires forall j :: 0 <= j < FirstIndex(adj[node], node) ==> adj[node][j] in s.visited - s.stack
    ensures VisitFrom(adj, node, s) == ([], Search(s.visited + {node}, s.stack + {node}, s.cycles + [[node, node]]))
  {
    ExploreSelfLoop(adj, node, 0, Search(s.visited + {node}, s.stack + {node}, s.cycles));
  }

  lemma {:induction false} ExploreSelfLoop(adj: map<string, seq<string>>, node: string, i: nat, s: Search)
    requires Closed(adj) && node in adj && s.visited <= adj.Keys
    requires node in s.stack && node in adj[node] && i <= FirstIndex(adj[node], node)
    requires forall j :: i <= j < FirstIndex(adj[node], node) ==> adj[node][j] in s.visited - s.stack
    ensures ExploreFrom(adj, node, i, s) == ([], Search(s.visited, s.stack, s.cycles + [[node, node]]))
    decreases FirstIndex(adj[node], node) - i
  {
    var child := adj[node][i];
    if i < FirstIndex(adj[node], node) {
      assert child in s.visited - s.stack;
      assert VisitFrom(adj, child, s) == ([], s);
      ExploreSelfLoop(adj, node, i + 1, s);
    } else {
      assert VisitFrom(adj, child, s) == ([node], s);
      assert [node] + [node] == [node, node];
    }
  }

  /** Appending a node whose subtypes are all finished keeps the order a
      finishing order. */
  lemma RankedAppend(adj: map<string, seq<string>>, finished: seq<string>, node: string)
    requires Ranked(adj, finished) && node in adj
    requires forall t :: t in adj[node] ==> t in finished
    ensures Ranked(adj, finished + [node])
  {
    var f := finished + [node];
    forall i | 0 <= i < |f| ensures f[i] in adj && forall t :: t in adj[f[i]] ==> t in f[..i] {
      if i < |finished| {
        assert f[..i] == finished[..i];
      } else {
        assert f[..i] == finished;
      }
    }
  }

  /**
   * Completeness of one `visit(node)` in a search that has met no stack hit:
   * when it records no cycle, either it returns no fragment, leaves the
   * stack as it was, and every node it visited is finished, each after all
   * of its subtypes; or it hands upwards a fragment that starts on the
   * stack, which the caller owning that stack entry will record.
   */
  lemma {:induction false} VisitComplete(adj: map<string, seq<string>>, node: string, s: Search,
                                         finished: seq<string>)
      returns (finished': seq<string>)
    requires Closed(adj) && node in adj && s.visited <= adj.Keys && s.stack <= s.visited
    requires Finished(adj, s.visited, s.stack, finished)
    ensures var (fragment, t) := VisitFrom(adj, node, s);
      t.cycles == s.cycles ==>
        if fragment == [] then
          && Finished(adj, t.visited, t.stack, finished') && t.stack == s.stack
          && node in finished' && forall n :: n in finished ==> n in finished'
        else fragment[0] in s.stack
    decreases adj.Keys - s.visited, 0
  {
    finished' := finished;
    if node !in s.visited {
      finished' := ExploreComplete(adj, node, 0, Search(s.visited + {node}, s.stack + {node}, s.cycles), finished);
    }
  }

  lemma {:induction false} ExploreComplete(adj: map<string, seq<string>>, node: string, i: nat, s: Search,
                                           finished: seq<string>)
      returns (finished': seq<string>)
    requires Closed(adj) && node in adj && i <= |adj[node]| && s.visited <= adj.Keys && s.stack <= s.visited
    requires node in s.stack && Finished(adj, s.visited, s.stack, finished)
    requires forall j :: 0 <= j < i ==> adj[node][j] in finished
    ensures var (fragment, t) := ExploreFrom(adj, node, i, s);
      t.cycles == s.cycles ==>
        if fragment == [] then
          && Finished(adj, t.visited, t.stack, finished') && t.stack == s.stack - {node}
          && node in finished' && forall n :: n in finished ==> n in finished'
        else fragment[0] in s.stack - {node}
    decreases adj.Keys - s.visited, 1, |adj[node]| - i
  {
    finished' := finished;
    if i == |adj[node]| {
      RankedAppend(adj, finished, node);
      finished' := finished + [node];
    } else {
      var child := adj[node][i];
      VisitShape(adj, child, s);
      var f1 := VisitComplete(adj, child, s, finished);
      var (fragment, s') := VisitFrom(adj, child, s);
      if fragment == [] {
        ExploreShape(adj, node, i + 1, s');
        if s'.cycles == s.cycles {
          finished' := ExploreComplete(adj, node, i + 1, s', f1);
        } else {
          var t := ExploreFrom(adj, node, i + 1, s').1;
          assert |t.cycles| > |s.cycles|;
        }
      }
    }
  }

  /** What detect_cycles's loop keeps: the stack stays within the visited
      nodes, every node of `order` is visited, and every recorded cycle has
      the recorded-cycle shape. */
  lemma {:induction false} SearchAllShape(adj: map<string, seq<string>>, order: seq<string>)
    requires Closed(adj) && forall n :: n in order ==> n in adj
    ensures var t := SearchAll(adj, order);
      && t.stack <= t.visited && (forall n :: n in order ==> n in t.visited)
      && forall c :: c in t.cycles ==> IsRecordedCycle(adj, c)
  {
    if order != [] {
      var prefix, last := order[..|order| - 1], order[|order| - 1];
      assert order == prefix + [last];
      SearchAllShape(adj, prefix);
      var m := SearchAll(adj, prefix);
      VisitShape(adj, last, m);
      var t := VisitFrom(adj, last, m).1;
      forall c | c in t.cycles ensures IsRecordedCycle(adj, c) {
        var k :| 0 <= k < |t.cycles| && t.cycles[k] == c;
        if k < |m.cycles| {
          assert t.cycles[..|m.cycles|][k] == c;
        }
      }
    }
  }

  /** Until detect_cycles records a cycle, its stack is empty between the
      top-level visits and the visited nodes have a finishing order. */
  lemma {:induction false} SearchAllComplete(adj: map<string, seq<string>>, order: seq<string>)
      returns (finished: seq<string>)
    requires Closed(adj) && forall n :: n in order ==> n in adj
    ensures var t := SearchAll(adj, order);
      t.cycles == [] ==> t.stack == {} && Finished(adj, t.visited, t.stack, finished)
  {
    finished := [];
    if order != [] {
      var prefix, last := order[..|order| - 1], order[|order| - 1];
      var m := SearchAll(adj, prefix);
      SearchAllShape(adj, prefix);
      var f := SearchAllComplete(adj, prefix);
      VisitShape(adj, last, m);
      if m.cycles == [] {
        finished := VisitComplete(adj, last, m, f);
      }
    }
  }

  /** detect_cycles returns no cycle exactly when the subtype graph has no
      closed walk, and every cycle it returns is a closed walk read backwards. */
  lemma DetectedIffAcyclic(g: Registry)
    requires WellFormed(g)
    ensures Detected(g) == [] <==> Acyclic(g.nodes)
    ensures forall c :: c in Detected(g) ==> IsRecordedCycle(g.nodes, c)
  {
    WellFormedClosed(g);
    SearchAllShape(g.nodes, g.order);
    var finished := SearchAllComplete(g.nodes, g.order);
    var t := SearchAll(g.nodes, g.order);
    if t.cycles == [] {
      RankedAcyclic(g.nodes, finished);
    } else if Acyclic(g.nodes) {
      AcyclicHasNoRecordedCycle(g.nodes, t.cycles[0]);
    }
  }

  /**
   * Not every cycle is recorded. With keys A, B, C and the subtypes A: [A],
   * B: [A, C], C: [B], the visit of A records [A, A] and leaves A on the
   * stack; B then hits the stale A and hands up a fragment that the outer
   * loop drops, as does C on the stale B. The cycle B -> C -> B is never
   * recorded.
   */
  lemma StaleStackMissesCycle()
    ensures Closed(map["A" := ["A"], "B" := ["A", "C"], "C" := ["B"]])
    ensures SearchAll(map["A" := ["A"], "B" := ["A", "C"], "C" := ["B"]], ["A", "B", "C"]).cycles == [["A", "A"]]
    ensures IsWalk(map["A" := ["A"], "B" := ["A", "C"], "C" := ["B"]], ["B", "C", "B"])
  {
    var adj := map["A" := ["A"], "B" := ["A", "C"], "C" := ["B"]];
    assert adj["A"] == ["A"] && adj["B"] == ["A", "C"] && adj["C"] == ["B"];
    var sA := Search({"A"}, {"A"}, [["A", "A"]]);
    var sB := Search({"A", "B"}, {"A", "B"}, [["A", "A"]]);
    var sC := Search({"A", "B", "C"}, {"A", "B", "C"}, [["A", "A"]]);
    assert {} + {"A"} == {"A"} && {"A"} + {"B"} == {"A", "B"} && {"A", "B"} + {"C"} == {"A", "B", "C"};
    assert ["A"] + ["A"] == ["A", "A"] && [] + [["A", "A"]] == [["A", "A"]];
    assert ["A"] + ["B"] == ["A", "B"] && ["B"] + ["C"] == ["B", "C"];
    var a1 := Search({"A"}, {"A"}, []);
    assert VisitFrom(adj, "A", a1) == (["A"], a1);
    assert ExploreFrom(adj, "A", 0, a1) == ([], sA);
    assert VisitFrom(adj, "A", Search({}, {}, [])) == ExploreFrom(adj, "A", 0, a1);
    assert SearchAll(adj, ["A"]) == sA by {
      assert ["A"][..0] == [];
    }
    assert VisitFrom(adj, "A", sB) == (["A"], sB);
    assert ExploreFrom(adj, "B", 0, sB) == (["A", "B"], sB);
    assert VisitFrom(adj, "B", sA) == ExploreFrom(adj, "B", 0, sB);
    assert SearchAll(adj, ["A", "B"]) == sB by {
      assert ["A", "B"][..1] == ["A"];
    }
    assert VisitFrom(adj, "B", sC) == (["B"], sC);
    assert ExploreFrom(adj, "C", 0, sC) == (["B", "C"], sC);
    assert VisitFrom(adj, "C", sB) == ExploreFrom(adj, "C", 0, sC);
    assert ["A", "B", "C"][..2] == ["A", "B"];
  }

  /**
   * A type that lists itself is not always recorded as [A, A]. With keys
   * A, B and the subtypes A: [B, A], B: [A], the visit of B hits A on the
   * stack, A closes and records [A, B, A] and returns before it reaches its
   * own entry.
   */
  lemma SelfListedAfterCycle()
    ensures Closed(map["A" := ["B", "A"], "B" := ["A"]])
    ensures SearchAll(map["A" := ["B", "A"], "B" := ["A"]], ["A", "B"]).cycles == [["A", "B", "A"]]
  {
    var adj := map["A" := ["B", "A"], "B" := ["A"]];
    assert adj["A"] == ["B", "A"] && adj["B"] == ["A"];
    var s1 := Search({"A"}, {"A"}, []);
    var s2 := Search({"A", "B"}, {"A", "B"}, []);
    var done := Search({"A", "B"}, {"A", "B"}, [["A", "B", "A"]]);
    assert {"A"} + {"B"} == {"A", "B"} && {} + {"A"} == {"A"};
    assert ["A"] + ["B"] == ["A", "B"];
    assert ["A", "B"] + ["A"] == ["A", "B", "A"] && [] + [["A", "B", "A"]] == [["A", "B", "A"]];
    assert VisitFrom(adj, "A", s2) == (["A"], s2);
    assert ExploreFrom(adj, "B", 0, s2) == (["A", "B"], s2);
    assert VisitFrom(adj, "B", s1) == ExploreFrom(adj, "B", 0, s2);
    assert ExploreFrom(adj, "A", 0, s1) == ([], done);
    assert VisitFrom(adj, "A", Search({}, {}, [])) == ExploreFrom(adj, "A", 0, s1);
    assert SearchAll(adj, ["A"]) == done by {
      assert ["A"][..0] == [];
    }
    assert VisitFrom(adj, "B", done) == (["B"], done);
    assert ["A", "B"][..1] == ["A"];
  }

  // ---------------------------------------------------------------------
  // Edge-list rendering

  /** One line of the edge-list dump. */
  function EdgeLine(e: Edge): string {
    e.source + " -> " + e.target + "\n"
  }

  /** The whole edge-list dump: one line per edge, in edge order. */
  function DumpText(edges: seq<Edge>): string {
    if edges == [] then ""
    else DumpText(edges[..|edges| - 1]) + EdgeLine(edges[|edges| - 1])
  }

  lemma {:induction false} DumpTextEmpty(edges: seq<Edge>)
    ensures DumpText(edges) == "" <==> edges == []
  {
    if edges != [] {
      assert |DumpText(edges)| >= |EdgeLine(edges[|edges| - 1])| > 0;
    }
  }

  lemma {:induction false} DumpTextConcat(a: seq<Edge>, b: seq<Edge>)
    ensures DumpText(a + b) == DumpText(a) + DumpText(b)
    decreases |b|
  {
    if b == [] {
      assert a + b == a;
    } else {
      var b' := b[..|b| - 1];
      DumpTextConcat(a, b');
      assert (a + b)[..|a + b| - 1] == a + b';
    }
  }

  function CountChar(s: string, c: char): nat {
    if s == [] then 0 else CountChar(s[..|s| - 1], c) + (if s[|s| - 1] == c then 1 else 0)
  }

  lemma {:induction false} CountCharConcat(a: string, b: string, c: char)
    ensures CountChar(a + b, c) == CountChar(a, c) + CountChar(b, c)
    decreases |b|
  {
    if b == [] {
      assert a + b == a;
    } else {
      CountCharConcat(a, b[..|b| - 1], c);
      assert (a + b)[..|a + b| - 1] == a + b[..|b| - 1];
    }
  }

  /** No type name contains a line break. */
  ghost predicate SingleLineNames(edges: seq<Edge>) {
    forall e :: e in edges ==> '\n' !in e.source && '\n' !in e.target
  }

  /** When no name holds a line break, the dump has exactly one line per edge. */
  lemma {:induction false} DumpTextLineCount(edges: seq<Edge>)
    requires SingleLineNames(edges)
    ensures CountChar(DumpText(edges), '\n') == |edges|
  {
    if edges != [] {
      var prefix, e := edges[..|edges| - 1], edges[|edges| - 1];
      assert SingleLineNames(prefix);
      DumpTextLineCount(prefix);
      CountCharConcat(DumpText(prefix), EdgeLine(e), '\n');
      NoBreakCount(e.source);
      NoBreakCount(e.target);
      CountCharConcat(e.source, " -> ", '\n');
      CountCharConcat(e.source + " -> ", e.target, '\n');
      CountCharConcat(e.source + " -> " + e.target, "\n", '\n');
      NoBreakCount(" -> ");
      assert CountChar("\n", '\n') == 1;
    }
  }

  lemma {:induction false} NoBreakCount(s: string)
    requires '\n' !in s
    ensures CountChar(s, '\n') == 0
  {
    if s != [] {
      NoBreakCount(s[..|s| - 1]);
    }
  }

  // ---------------------------------------------------------------------
  // The graph object

  class Graph {
    var nodes: map<string, seq<string>>
    var order: seq<string>
    var edges: seq<Edge>

    ghost function Model(): Registry
      reads this
    {
      Registry(nodes, order, edges)
    }

    ghost predicate Valid()
      reads this
    {
      WellFormed(Model())
    }

    constructor ()
      ensures Valid() && Model() == EmptyRegistry
    {
      nodes, order, edges := map[], [], [];
    }

    /** add_node: returns the node (its name) for `typeName`, creating it when absent. */
    method AddNode(typeName: string) returns (node: string)
      requires Valid()
      modifies this
      ensures Valid()
      ensures node == typeName && node in nodes
      ensures Model() == WithNode(old(Model()), typeName)
    {
      if typeName !in nodes {
        nodes := nodes[typeName := []];
        order := order + [typeName];
      }
      node := typeName;
      AddNodePreservesWellFormed(old(Model()), typeName);
    }

    /** TNode.add_subtype: appends `subtype` to the subtypes of `typeName`. */
    method AddSubtype(typeName: string, subtype: string)
      requires typeName in nodes
      modifies this
      ensures nodes == old(nodes)[typeName := old(nodes)[typeName] + [subtype]]
      ensures order == old(order) && edges == old(edges)
    {
      nodes := nodes[typeName := nodes[typeName] + [subtype]];
    }

    /** add_edge */
    method AddEdge(fromType: string, toType: string)
      requires Valid()
      modifies this
      ensures Valid()
      ensures Model() == WithEdge(old(Model()), fromType, toType)
    {
      var fromNode := AddNode(fromType);
      var toNode := AddNode(toType);
      AddSubtype(fromNode, toNode);
      edges := edges + [Edge(fromNode, toNode)];
      AddEdgePreservesWellFormed(old(Model()), fromType, toType);
    }

    /**
     * The nested `visit` of detect_cycles, proved to compute `VisitFrom`.
     * The `visited` and `stack` sets and the `cycles` list it shares with
     * detect_cycles are threaded through as values; `expanded` records, in
     * order, each node whose subtypes are explored. A fresh node is taken
     * off the stack only when its loop runs to the end: after handing a
     * fragment upwards, or after recording a cycle that closes at it, it
     * stays there, as in the source.
     */
    method Visit(node: string, visited: set<string>, stack: set<string>, cycles: seq<seq<string>>,
                 ghost expanded: seq<string>)
      returns (fragment: seq<string>, visited': set<string>, stack': set<string>, cycles': seq<seq<string>>,
               ghost expanded': seq<string>)
      requires Closed(nodes)
      requires node in nodes
      requires visited <= nodes.Keys && stack <= visited
      requires Enumerates(expanded, visited)
      ensures (fragment, Search(visited', stack', cycles')) == VisitFrom(nodes, node, Search(visited, stack, cycles))
      ensures visited <= visited' <= nodes.Keys && stack <= stack' <= visited' && node in visited'
      ensures Enumerates(expanded', visited')
      ensures node !in visited ==>
                (node in stack' <==>
                   fragment != [] || ClosedAt(Search(visited, stack, cycles), Search(visited', stack', cycles'), node))
      ensures node !in visited && node in nodes[node] ==> node in stack'
      decreases nodes.Keys - visited
    {
      VisitShape(nodes, node, Search(visited, stack, cycles));
      if node !in visited && node in nodes[node] {
        VisitSelfListed(nodes, node, Search(visited, stack, cycles));
      }
      if node in stack {
        return [node], visited, stack, cycles, expanded;
      }
      if node in visited {
        return [], visited, stack, cycles, expanded;
      }
      visited', stack', cycles', expanded' := visited + {node}, stack + {node}, cycles, expanded + [node];
      var subtypes := nodes[node];
      var i := 0;
      while i < |subtypes|
        invariant 0 <= i <= |subtypes|
        invariant visited + {node} <= visited' <= nodes.Keys && stack + {node} <= stack' <= visited'
        invariant Enumerates(expanded', visited')
        invariant VisitFrom(nodes, node, Search(visited, stack, cycles))
                  == ExploreFrom(nodes, node, i, Search(visited', stack', cycles'))
      {
        var cycle;
        cycle, visited', stack', cycles', expanded' := Visit(subtypes[i], visited', stack', cycles', expanded');
        if cycle != [] {
          cycle := cycle + [node];
          if cycle[0] == node {
            cycles' := cycles' + [cycle];
            return [], visited', stack', cycles', expanded';
          }
          return cycle, visited', stack', cycles', expanded';
        }
        i := i + 1;
      }
      stack' := stack' - {node};
      fragment := [];
    }

    /** detect_cycles: visits every registered node in insertion order and
        returns the recorded cycles, which are none exactly when the subtype
        graph has no cycle; `expanded` is every node whose subtypes were
        explored, each exactly once. */
    method DetectCycles() returns (cycles: seq<seq<string>>, ghost expanded: seq<string>)
      requires Valid()
      ensures cycles == Detected(Model())
      ensures forall c :: c in cycles ==> IsRecordedCycle(nodes, c)
      ensures cycles == [] <==> Acyclic(nodes)
      ensures Enumerates(expanded, nodes.Keys)
    {
      WellFormedClosed(Model());
      var visited: set<string>, stack: set<string> := {}, {};
      cycles, expanded := [], [];
      for k := 0 to |order|
        invariant visited <= nodes.Keys && stack <= visited
        invariant Search(visited, stack, cycles) == SearchAll(nodes, order[..k])
        invariant Enumerates(expanded, visited)
        invariant forall j :: 0 <= j < k ==> order[j] in visited
      {
        var fragment;
        assert order[..k + 1][..k] == order[..k];
        fragment, visited, stack, cycles, expanded := Visit(order[k], visited, stack, cycles, expanded);
      }
      assert order[..|order|] == order;
      DetectedIffAcyclic(Model());
    }

    /** The line rendering of dump_graph: the text written to the file. */
    method DumpGraph() returns (text: string)
      ensures text == DumpText(edges)
    {
      text := "";
      for k := 0 to |edges|
        invariant text == DumpText(edges[..k])
      {
        assert edges[..k + 1][..k] == edges[..k];
        text := text + EdgeLine(edges[k]);
      }
      assert edges[..|edges|] == edges;
    }
  }
}
