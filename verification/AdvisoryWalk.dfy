/** The depth-first reverse walk of `require_matrix_only_bitmaps_chain`
    (packaging/advisory_exception_gate.py:246-426) and its exact verdict. */
module AdvisoryWalk {
  import opened Outcomes
  import opened AdvisoryGraph
  import Sorting

  // ---- The reverse map -----------------------------------------------------------------------

  function Entry(reverse: map<string, seq<string>>, id: string): seq<string> {
    if id in reverse then reverse[id] else []
  }

  /** The list kept for `id` enumerates its dependents once. */
  ghost predicate ListsParents(g: Graph, reverse: map<string, seq<string>>, id: string) {
    Elements(Entry(reverse, id)) == Parents(g, id) && Distinct(Entry(reverse, id))
  }

  /** Dependents of `id` in node order. */
  ghost function ParentList(nodes: seq<ResolveNode>, id: string): seq<string> {
    if nodes == [] then []
    else
      var last := nodes[|nodes| - 1];
      ParentList(nodes[..|nodes| - 1], id) + if id in last.dependencies then [last.id] else []
  }

  lemma {:induction false} ParentListElements(nodes: seq<ResolveNode>, id: string)
    ensures Elements(ParentList(nodes, id)) == set n | n in nodes && id in n.dependencies :: n.id
  {
    if nodes != [] {
      var front, last := nodes[..|nodes| - 1], nodes[|nodes| - 1];
      ParentListElements(front, id);
      assert nodes == front + [last];
      ElementsConcat(ParentList(front, id), if id in last.dependencies then [last.id] else []);
    }
  }

  lemma {:induction false} ParentListDistinct(nodes: seq<ResolveNode>, id: string)
    requires Distinct(NodeIds(nodes))
    ensures Distinct(ParentList(nodes, id))
  {
    if nodes != [] {
      var front, last := nodes[..|nodes| - 1], nodes[|nodes| - 1];
      assert NodeIds(nodes) == NodeIds(front) + [last.id];
      assert forall k :: 0 <= k < |front| ==> front[k].id == NodeIds(nodes)[k];
      ParentListDistinct(front, id);
      ParentListElements(front, id);
      assert last.id !in Elements(ParentList(front, id));
    }
  }

  lemma ElementsConcat<T>(a: seq<T>, b: seq<T>)
    ensures Elements(a + b) == Elements(a) + Elements(b)
  {
  }

  lemma DistinctByMultiset<T>(s: seq<T>, t: seq<T>)
    requires multiset(s) == multiset(t)
    ensures Elements(s) == Elements(t)
    ensures Distinct(s) <==> Distinct(t)
  {
    forall x ensures x in s <==> x in t {
      assert x in s <==> x in multiset(s);
      assert x in t <==> x in multiset(t);
    }
    assert |s| == |multiset(s)| && |t| == |multiset(t)|;
    DistinctCount(s);
    DistinctCount(t);
  }

  method AddDependent(reverse: map<string, seq<string>>, node: ResolveNode) returns (r: map<string, seq<string>>)
    requires Distinct(node.dependencies)
    ensures forall id :: Entry(r, id) == Entry(reverse, id) + if id in node.dependencies then [node.id] else []
  {
    r := reverse;
    for j := 0 to |node.dependencies|
      invariant forall id :: Entry(r, id) == Grown(reverse, node.dependencies[..j], node.id, id)
    {
      var dependency := node.dependencies[j];
      ghost var done := node.dependencies[..j];
      assert dependency !in done;
      assert node.dependencies[..j + 1] == done + [dependency];
      ghost var before := r;
      r := r[dependency := Entry(r, dependency) + [node.id]];
      forall id ensures Entry(r, id) == Grown(reverse, done + [dependency], node.id, id) {
        assert Entry(before, id) == Grown(reverse, done, node.id, id);
      }
    }
    assert node.dependencies[..|node.dependencies|] == node.dependencies;
  }

  /** The dependents of `id` once `parent` has been recorded for the packages in `done`. */
  ghost function Grown(reverse: map<string, seq<string>>, done: seq<string>, parent: string, id: string): seq<string> {
    Entry(reverse, id) + if id in done then [parent] else []
  }

  /** Reversal and in-place sort: each list enumerates the dependents once. */
  method ReverseEdges(g: Graph) returns (reverse: map<string, seq<string>>)
    requires forall n :: n in g.nodes ==> Distinct(n.dependencies)
    requires Distinct(NodeIds(g.nodes))
    ensures forall id :: ListsParents(g, reverse, id)
  {
    reverse := map[];
    for i := 0 to |g.nodes|
      invariant forall id :: Entry(reverse, id) == ParentList(g.nodes[..i], id)
    {
      assert g.nodes[i] in g.nodes;
      reverse := AddDependent(reverse, g.nodes[i]);
      assert g.nodes[..i + 1][..i] == g.nodes[..i];
    }
    assert g.nodes[..|g.nodes|] == g.nodes;
    var unsorted := reverse;
    reverse := map id | id in unsorted :: Sorting.Sorted(unsorted[id], Sorting.StringLe);
    forall id ensures ListsParents(g, reverse, id) {
      ParentListElements(g.nodes, id);
      ParentListDistinct(g.nodes, id);
      DistinctByMultiset(Entry(reverse, id), Entry(unsorted, id));
    }
  }

  // ---- Certificates --------------------------------------------------------------------------

  /** Marker `i` of a finishing order is expandable, not repeated earlier, and all its moves
      lead to markers finished earlier. */
  ghost predicate FinishedAt(g: Graph, order: seq<Marker>, i: int)
    requires Closed(g)
  {
    0 <= i < |order| ==>
      && InUniverse(g, order[i]) && Expandable(g, order[i])
      && order[i] !in order[..i]
      && forall to {:trigger MayGo(g, order[i], to)} :: MayGo(g, order[i], to) ==> to in order[..i]
  }

  ghost predicate Topological(g: Graph, order: seq<Marker>)
    requires Closed(g)
  {
    forall i :: FinishedAt(g, order, i)
  }

  /** Along a path the finishing index strictly falls, so the path stays finished and distinct. */
  lemma {:induction false} WalkDescends(g: Graph, order: seq<Marker>, w: seq<Marker>) returns (k: nat)
    requires Closed(g) && Topological(g, order) && Walk(g, w) && w[0] in order
    ensures k < |order| && order[k] == w[|w| - 1]
    ensures forall i, j :: 0 <= i < |w| - 1 && 0 <= j <= k ==> w[i] != order[j]
    ensures Distinct(w)
  {
    var front, last := w[..|w| - 1], w[|w| - 1];
    if front == [] {
      k :| 0 <= k < |order| && order[k] == last;
    } else {
      var j := WalkDescends(g, order, front);
      assert FinishedAt(g, order, j) && MayGo(g, order[j], last);
      k :| 0 <= k < j && order[k] == last;
      forall i, h | 0 <= i < |w| - 1 && 0 <= h <= k ensures w[i] != order[h] {
        assert w[i] == front[i];
        assert order[h] in order[..j];
      }
      assert w == front + [last];
    }
  }

  /** A finishing order that contains the root certifies acceptance. */
  lemma FinishedMeansAccepted(g: Graph, order: seq<Marker>, root: Marker)
    requires Closed(g) && Topological(g, order) && root in order
    ensures Accepts(g, root)
  {
    forall w | Walk(g, w) && w[0] == root ensures Expandable(g, w[|w| - 1]) && Distinct(w) {
      var k := WalkDescends(g, order, w);
      assert FinishedAt(g, order, k);
    }
  }

  // ---- Terminal edges ------------------------------------------------------------------------

  /** Edges from `n` to workspace members that end a path. */
  ghost function Terminals(g: Graph, n: Marker): set<string> {
    set p | p in Parents(g, n.id) && p in g.roles && 0 <= n.state <= 4 && StepTo(g, n.state, p) == Stop
  }

  ghost function TerminalEdges(g: Graph, order: seq<Marker>): nat {
    if order == [] then 0
    else TerminalEdges(g, order[..|order| - 1]) + |Terminals(g, order[|order| - 1])|
  }

  /** The first finished marker has no onward move, so it ends at a workspace member. */
  lemma {:induction false} FirstFinishedTerminates(g: Graph, order: seq<Marker>)
    requires Closed(g) && Topological(g, order) && order != []
    ensures TerminalEdges(g, order) > 0
  {
    if |order| == 1 {
      var n := order[0];
      assert FinishedAt(g, order, 0);
      var p :| p in Parents(g, n.id);
      if StepTo(g, n.state, p).Go? {
        assert MayGo(g, n, Marker(p, StepTo(g, n.state, p).next));
        assert false;
      }
      assert p in Terminals(g, n);
    } else {
      var front := order[..|order| - 1];
      TopologicalPrefix(g, order);
      FirstFinishedTerminates(g, front);
    }
  }

  lemma TerminalEdgesSnoc(g: Graph, order: seq<Marker>, n: Marker)
    ensures TerminalEdges(g, order + [n]) == TerminalEdges(g, order) + |Terminals(g, n)|
  {
    assert (order + [n])[..|order|] == order;
  }

  /** Terminal edges of a set of markers, as (marker, workspace member) pairs. */
  ghost function TerminalPairs(g: Graph, markers: set<Marker>): set<(Marker, string)> {
    set n, p | n in markers && p in Terminals(g, n) :: (n, p)
  }

  ghost function Tagged<A, B>(a: A, s: set<B>): set<(A, B)> {
    set b | b in s :: (a, b)
  }

  lemma {:induction false} TaggedSize<A, B>(a: A, s: set<B>)
    ensures |Tagged(a, s)| == |s|
  {
    if s == {} {
      assert Tagged(a, s) == {};
    } else {
      var x :| x in s;
      TaggedSize(a, s - {x});
      assert Tagged(a, s) == Tagged(a, s - {x}) + {(a, x)};
    }
  }

  lemma TerminalPairsAdd(g: Graph, markers: set<Marker>, n: Marker)
    requires n !in markers
    ensures |TerminalPairs(g, markers + {n})| == |TerminalPairs(g, markers)| + |Terminals(g, n)|
  {
    hide Terminals;
    var before, ends := TerminalPairs(g, markers), Tagged(n, Terminals(g, n));
    assert TerminalPairs(g, markers + {n}) == before + ends;
    assert before !! ends;
    TaggedSize(n, Terminals(g, n));
  }

  lemma {:induction false} TerminalEdgesArePairs(g: Graph, order: seq<Marker>)
    requires Closed(g) && Topological(g, order)
    ensures TerminalEdges(g, order) == |TerminalPairs(g, Elements(order))|
  {
    hide Terminals, Expandable, MayGo;
    if order == [] {
      assert TerminalPairs(g, Elements(order)) == {};
    } else {
      var front, last := order[..|order| - 1], order[|order| - 1];
      TopologicalPrefix(g, order);
      TerminalEdgesArePairs(g, front);
      assert FinishedAt(g, order, |order| - 1) && last !in front;
      assert order == front + [last];
      ElementsConcat(front, [last]);
      assert Elements([last]) == {last};
      TerminalPairsAdd(g, Elements(front), last);
    }
  }

  lemma TopologicalPrefix(g: Graph, order: seq<Marker>)
    requires Closed(g) && Topological(g, order) && order != []
    ensures Topological(g, order[..|order| - 1])
  {
    var front := order[..|order| - 1];
    forall i ensures FinishedAt(g, front, i) {
      assert FinishedAt(g, order, i);
      assert 0 <= i < |front| ==> front[..i] == order[..i];
    }
  }

  // ---- The walk ------------------------------------------------------------------------------

  ghost function Universe(g: Graph): set<Marker> {
    set id, state | id in g.packages && 0 <= state <= 4 :: Marker(id, state)
  }

  /** All moves of an expandable marker lead to finished markers. */
  ghost predicate Settled(g: Graph, n: Marker, visited: set<Marker>)
    requires Closed(g) && InUniverse(g, n)
  {
    Expandable(g, n) && forall to {:trigger MayGo(g, n, to)} :: MayGo(g, n, to) ==> to in visited
  }

  /** What every step of the walk keeps: `order` is a finishing order of `visited`, `stack` is
      the reverse path under exploration, and no marker is on both or expanded twice. */
  ghost predicate Consistent(g: Graph, root: Marker, visited: set<Marker>, active: set<Marker>,
                             order: seq<Marker>, stack: seq<Marker>, expanded: seq<Marker>)
    requires Closed(g)
  {
    && Topological(g, order) && visited == Elements(order)
    && (forall n :: n in visited ==> Reaches(g, root, n))
    && (stack == [] || (Walk(g, stack) && stack[0] == root)) && active == Elements(stack)
    && active !! visited
    && Distinct(expanded) && active + visited <= Elements(expanded)
  }

  lemma ConsistentStack(g: Graph, root: Marker, visited: set<Marker>, active: set<Marker>,
                        order: seq<Marker>, stack: seq<Marker>, expanded: seq<Marker>)
    requires Closed(g) && Consistent(g, root, visited, active, order, stack, expanded)
    ensures stack != [] ==> Walk(g, stack) && stack[0] == root
    ensures active == Elements(stack) && forall n :: n in active <==> n in stack
    ensures active !! visited
    ensures active <= Universe(g)
  {
  }

  lemma RemoveAdded<T>(s: set<T>, x: T, t: set<T>)
    requires x !in s
    ensures s + {x} - {x} == s
    ensures s + {x} + t == s + (t + {x})
  {
  }

  lemma PushConsistent(g: Graph, root: Marker, visited: set<Marker>, active: set<Marker>,
                       order: seq<Marker>, stack: seq<Marker>, expanded: seq<Marker>, n: Marker)
    requires Closed(g) && Consistent(g, root, visited, active, order, stack, expanded)
    requires Elements(expanded) == active + visited
    requires InUniverse(g, n) && n !in active && n !in visited
    requires if stack == [] then n == root else MayGo(g, stack[|stack| - 1], n)
    ensures Consistent(g, root, visited, active + {n}, order, stack + [n], expanded + [n])
    ensures Elements(expanded + [n]) == active + {n} + visited
  {
    ElementsConcat(stack, [n]);
    ElementsConcat(expanded, [n]);
    if stack != [] {
      WalkSnoc(g, stack, n);
    }
    assert n !in Elements(expanded);
  }

  lemma PopConsistent(g: Graph, root: Marker, visited: set<Marker>, active: set<Marker>,
                      order: seq<Marker>, stack: seq<Marker>, expanded: seq<Marker>, n: Marker)
    requires Closed(g) && Consistent(g, root, visited, active + {n}, order, stack + [n], expanded)
    requires active == Elements(stack)
    ensures Consistent(g, root, visited, active, order, stack, expanded)
    ensures n !in visited && n in expanded && Reaches(g, root, n)
  {
    var path := stack + [n];
    assert path[|path| - 1] == n;
    if stack != [] {
      WalkSnoc(g, stack, n);
    }
  }

  /** The part of `Settled` and of `Terminals` established by the first parents. */
  ghost predicate SettledUpTo(g: Graph, n: Marker, visited: set<Marker>, parents: seq<string>)
    requires Closed(g) && InUniverse(g, n)
  {
    forall p :: p in parents && p in Parents(g, n.id) ==>
      match StepTo(g, n.state, p)
      case Refuse => false
      case Stop => true
      case Go(next) => Marker(p, next) in visited
  }

  ghost function StopsAmong(g: Graph, n: Marker, parents: seq<string>): set<string>
    requires Closed(g) && InUniverse(g, n)
  {
    set p | p in parents && p in Parents(g, n.id) && StepTo(g, n.state, p) == Stop
  }

  lemma SettledByAllParents(g: Graph, n: Marker, visited: set<Marker>, parents: seq<string>)
    requires Closed(g) && InUniverse(g, n) && Elements(parents) == Parents(g, n.id) && parents != []
    requires SettledUpTo(g, n, visited, parents)
    ensures Settled(g, n, visited) && StopsAmong(g, n, parents) == Terminals(g, n)
  {
    assert parents[0] in Elements(parents);
    forall p | p in Parents(g, n.id) ensures p in parents {
      assert p in Elements(parents);
    }
  }

  lemma NothingSettled(g: Graph, n: Marker, visited: set<Marker>)
    requires Closed(g) && InUniverse(g, n)
    ensures SettledUpTo(g, n, visited, []) && StopsAmong(g, n, []) == {}
  {
  }

  lemma SettledGrows(g: Graph, n: Marker, visited: set<Marker>, later: set<Marker>, parents: seq<string>)
    requires Closed(g) && InUniverse(g, n) && SettledUpTo(g, n, visited, parents) && visited <= later
    ensures SettledUpTo(g, n, later, parents)
  {
  }

  lemma SettleOne(g: Graph, n: Marker, visited: set<Marker>, parents: seq<string>, p: string)
    requires Closed(g) && InUniverse(g, n) && SettledUpTo(g, n, visited, parents) && p in Parents(g, n.id)
    requires match StepTo(g, n.state, p)
             case Refuse => false
             case Stop => true
             case Go(next) => Marker(p, next) in visited
    ensures SettledUpTo(g, n, visited, parents + [p])
    ensures p !in parents ==> |StopsAmong(g, n, parents + [p])| ==
                              |StopsAmong(g, n, parents)| + if StepTo(g, n.state, p) == Stop then 1 else 0
  {
    assert StopsAmong(g, n, parents + [p]) ==
           StopsAmong(g, n, parents) + if StepTo(g, n.state, p) == Stop then {p} else {};
  }

  /** A path that ends in a marker the walk cannot expand refutes acceptance. */
  lemma StuckRejects(g: Graph, path: seq<Marker>)
    requires Closed(g) && Walk(g, path) && !Expandable(g, path[|path| - 1])
    ensures !Accepts(g, path[0])
  {
  }

  /** A path that returns to one of its own markers refutes acceptance. */
  lemma CycleRejects(g: Graph, path: seq<Marker>, n: Marker)
    requires Closed(g) && Walk(g, path) && InUniverse(g, n)
    requires n in path && MayGo(g, path[|path| - 1], n)
    ensures !Accepts(g, path[0])
  {
    var w := path + [n];
    WalkSnoc(g, path, n);
    var k :| 0 <= k < |path| && path[k] == n;
    assert w[k] == w[|w| - 1] && k < |w| - 1;
  }

  lemma FinishTopological(g: Graph, order: seq<Marker>, n: Marker)
    requires Closed(g) && Topological(g, order)
    requires InUniverse(g, n) && n !in order && Settled(g, n, Elements(order))
    ensures Topological(g, order + [n])
  {
    var longer := order + [n];
    forall i ensures FinishedAt(g, longer, i) {
      assert FinishedAt(g, order, i);
      assert 0 <= i <= |order| ==> longer[..i] == order[..i];
      assert order[..|order|] == order;
    }
  }

  lemma FinishConsistent(g: Graph, root: Marker, visited: set<Marker>, active: set<Marker>,
                         order: seq<Marker>, stack: seq<Marker>, expanded: seq<Marker>, n: Marker)
    requires Closed(g) && Consistent(g, root, visited, active, order, stack, expanded)
    requires InUniverse(g, n) && n !in active && n !in visited && n in expanded
    requires Settled(g, n, visited) && Reaches(g, root, n)
    ensures Consistent(g, root, visited + {n}, active, order + [n], stack, expanded)
    ensures TerminalEdges(g, order + [n]) == TerminalEdges(g, order) + |Terminals(g, n)|
  {
    FinishTopological(g, order, n);
    ElementsConcat(order, [n]);
    TerminalEdgesSnoc(g, order, n);
  }

  /** The mutable state of the nested `visit` function. */
  class Walker {
    const g: Graph
    const reverse: map<string, seq<string>>
    ghost const root: Marker
    var visited: set<Marker>
    var active: set<Marker>
    var terminalPaths: nat
    ghost var order: seq<Marker>    // markers in finishing order
    ghost var stack: seq<Marker>    // the current reverse path
    ghost var expanded: seq<Marker> // every marker whose parents were examined
    ghost var counted: nat          // terminal edges of the finished markers

    ghost predicate Valid()
      reads this
    {
      && Closed(g) && VersionsReviewed(g)
      && (forall id :: ListsParents(g, reverse, id))
      && Consistent(g, root, visited, active, order, stack, expanded)
      && counted == TerminalEdges(g, order)
    }

    constructor (g: Graph, reverse: map<string, seq<string>>, ghost root: Marker)
      requires Closed(g) && VersionsReviewed(g)
      requires forall id :: ListsParents(g, reverse, id)
      ensures this.g == g && this.reverse == reverse && this.root == root
      ensures Valid() && stack == [] && expanded == [] && order == [] && terminalPaths == 0
    {
      this.g, this.reverse, this.root := g, reverse, root;
      visited, active, terminalPaths := {}, {}, 0;
      order, stack, expanded, counted := [], [], [], 0;
    }

    /** `visit`: afterwards the marker is finished, or the verdict is certainly negative. */
    method Visit(marker: Marker) returns (r: Outcome<GateError>)
      requires Valid() && InUniverse(g, marker) && Elements(expanded) == active + visited
      requires if stack == [] then marker == root else MayGo(g, stack[|stack| - 1], marker)
      modifies this
      ensures Valid() && stack == old(stack) && active == old(active)
      ensures r.Pass? ==> marker in visited && old(visited) <= visited
      ensures r.Pass? ==> terminalPaths - counted == old(terminalPaths - counted)
      ensures r.Pass? ==> Elements(expanded) == active + visited
      ensures r.Fail? ==> !Accepts(g, root) && !NeverRaised(r.error)
      decreases Universe(g) - active, 0
    {
      hide Consistent, Accepts, Settled, Terminals, MayGo, Expandable, TerminalEdges, ListsParents,
           Closed, VersionsReviewed, Walk, Elements, Reaches;
      ConsistentStack(g, root, visited, active, order, stack, expanded);
      if marker in active {
        CycleRejects(g, stack, marker);
        return Fail(CyclicPath);
      }
      if marker in visited {
        return Pass;
      }
      ghost var stack0, active0 := stack, active;
      PushConsistent(g, root, visited, active, order, stack, expanded, marker);
      active := active + {marker};
      stack, expanded := stack + [marker], expanded + [marker];
      assert marker in Universe(g);

      r := Expand(marker);

      PopConsistent(g, root, visited, active0, order, stack0, expanded, marker);
      RemoveAdded(active0, marker, visited);
      if r.Pass? {
        FinishConsistent(g, root, visited, active0, order, stack0, expanded, marker);
        visited := visited + {marker};
        order, counted := order + [marker], counted + |Terminals(g, marker)|;
      }
      active := active - {marker};
      stack := stack0;
    }

    /** The loop over the parents of an active marker. */
    method Expand(marker: Marker) returns (r: Outcome<GateError>)
      requires Valid() && stack != [] && stack[|stack| - 1] == marker
      requires Elements(expanded) == active + visited
      modifies this
      ensures Valid() && stack == old(stack) && active == old(active)
      ensures r.Pass? ==> Settled(g, marker, visited) && old(visited) <= visited
      ensures r.Pass? ==> terminalPaths - counted ==
                          old(terminalPaths - counted) + |Terminals(g, marker)|
      ensures r.Pass? ==> Elements(expanded) == active + visited
      ensures r.Fail? ==> !Accepts(g, root) && !NeverRaised(r.error)
      decreases Universe(g) - active, 1
    {
      hide Consistent, Accepts, TerminalEdges, SettledUpTo, StopsAmong, Settled, Terminals,
           Walk, Reaches, Step, ReviewedVersion;
      ConsistentStack(g, root, visited, active, order, stack, expanded);
      var parents := Entry(reverse, marker.id);
      assert ListsParents(g, reverse, marker.id);
      if parents == [] {
        StuckRejects(g, stack);
        return Fail(DeadEnd);
      }
      NothingSettled(g, marker, visited);
      var i := 0;
      while i < |parents|
        invariant 0 <= i <= |parents|
        invariant Valid() && stack == old(stack) && active == old(active)
        invariant old(visited) <= visited && Elements(expanded) == active + visited
        invariant SettledUpTo(g, marker, visited, parents[..i])
        invariant terminalPaths - counted ==
                  old(terminalPaths - counted) + |StopsAmong(g, marker, parents[..i])|
      {
        var parent := parents[i];
        assert parent in Elements(parents) && parent !in parents[..i];
        assert parents[..i + 1] == parents[..i] + [parent];
        match StepTo(g, marker.state, parent) {
          case Refuse =>
            StuckRejects(g, stack);
            return Fail(IllegalParent);
          case Stop =>
            terminalPaths := terminalPaths + 1;
          case Go(next) =>
            assert VersionReviewed(g, parent);
            if ReviewedVersion(g.roles[parent]) != Some(g.packages[parent].version) {
              return Fail(UnreviewedVersionOnPath);
            }
            ghost var visited0 := visited;
            r := Visit(Marker(parent, next));
            if r.Fail? {
              return;
            }
            SettledGrows(g, marker, visited0, visited, parents[..i]);
        }
        SettleOne(g, marker, visited, parents[..i], parent);
        i := i + 1;
      }
      assert parents[..i] == parents;
      SettledByAllParents(g, marker, visited, parents);
      r := Pass;
    }
  }
}
