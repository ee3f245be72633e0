/** The advisory exception gate as a whole: the exact acceptance condition of
    `require_matrix_only_bitmaps_chain` and of `validate`
    (packaging/advisory_exception_gate.py:246-463). */
module AdvisoryGate {
  import opened Outcomes
  import opened AdvisoryGraph
  import opened AdvisoryWalk
  import opened AdvisoryShape

  ghost function PackageWith(ps: seq<Package>, id: string): (p: Package)
    requires id in Elements(PackageIds(ps))
    ensures p in ps && p.id == id
  {
    var i :| 0 <= i < |ps| && PackageIds(ps)[i] == id;
    ps[i]
  }

  /** The graph of well-formed metadata. */
  ghost function GraphOf(m: Metadata): Graph {
    var packages := map id | id in Elements(PackageIds(m.packages)) :: PackageWith(m.packages, id);
    var roles := map id | id in packages :: RoleOf(packages[id].name);
    Graph(packages, roles, Elements(m.workspaceMembers), m.nodes)
  }

  lemma RepresentsIsGraphOf(g: Graph, m: Metadata)
    requires WellFormed(m) && Represents(g, m)
    ensures g == GraphOf(m)
  {
    hide RoleOf;
    assert g.packages == GraphOf(m).packages;
    assert g.roles == GraphOf(m).roles;
  }

  lemma GraphClosed(m: Metadata)
    requires WellFormed(m)
    ensures Closed(GraphOf(m))
  {
    hide RoleOf;
  }

  lemma GraphVersionsReviewed(m: Metadata)
    requires WellFormed(m) && ReviewedOnly(m)
    ensures Closed(GraphOf(m)) && VersionsReviewed(GraphOf(m))
  {
    hide RoleOf, ReviewedVersion;
    GraphClosed(m);
    var g := GraphOf(m);
    forall id | id in g.packages ensures VersionReviewed(g, id) {
      assert g.packages[id] in m.packages;
      if g.roles[id] != Unreviewed {
        assert AllCanonical(m.packages, g.packages[id].name);
      }
    }
  }

  /** The package the walk starts from. */
  ghost predicate IsTarget(m: Metadata, target: Package) {
    target in m.packages && target.name == "bitmaps"
  }

  /** The reverse chain is the reviewed one: structural checks, reviewed packages only, one
      bitmaps package, and an accepted walk from it. */
  ghost predicate ChainAccepted(m: Metadata, target: Package) {
    && WellFormed(m) && ReviewedOnly(m) && IsTarget(m, target)
    && Closed(GraphOf(m)) && Accepts(GraphOf(m), Marker(target.id, 0))
  }

  /** Everything the walk can reach. */
  ghost function ReachableMarkers(g: Graph, root: Marker): set<Marker>
    requires Closed(g)
  {
    set n | n in Universe(g) && Reaches(g, root, n)
  }

  lemma VisitedIsReachable(g: Graph, root: Marker, order: seq<Marker>)
    requires Closed(g) && Topological(g, order) && root in order
    requires forall n :: n in Elements(order) ==> Reaches(g, root, n)
    ensures Elements(order) == ReachableMarkers(g, root)
  {
    hide Terminals, Expandable, MayGo;
    forall n | n in order ensures n in ReachableMarkers(g, root) {
      assert n in Elements(order) && Reaches(g, root, n);
      var k :| 0 <= k < |order| && order[k] == n;
      assert FinishedAt(g, order, k);
    }
    forall n | n in ReachableMarkers(g, root) ensures n in order {
      var w :| Walk(g, w) && w[0] == root && w[|w| - 1] == n;
      var k := WalkDescends(g, order, w);
    }
  }

  /** The walk from the single bitmaps package over an already checked graph. */
  method WalkFrom(g: Graph, root: Marker) returns (r: Result<nat, GateError>)
    requires Closed(g) && VersionsReviewed(g) && InUniverse(g, root)
    requires (forall n :: n in g.nodes ==> Distinct(n.dependencies)) && Distinct(NodeIds(g.nodes))
    ensures r.Success? <==> Accepts(g, root)
    ensures r.Success? ==> r.value == |TerminalPairs(g, ReachableMarkers(g, root))| > 0
    ensures r.Failure? ==> !NeverRaised(r.error)
  {
    var reverse := ReverseEdges(g);
    hide Accepts, Terminals, MayGo, Expandable, TerminalEdges, ListsParents, FinishedAt;
    var walker := new Walker(g, reverse, root);
    assert walker.active == {} && walker.visited == {} by {
      assert walker.active == Elements([]) && walker.visited == Elements([]);
    }
    var outcome := walker.Visit(root);
    if outcome.Fail? {
      return Failure(outcome.error);
    }
    ghost var order := walker.order;
    assert root in order;
    FinishedMeansAccepted(g, order, root);
    VisitedIsReachable(g, root, order);
    FirstFinishedTerminates(g, order);
    TerminalEdgesArePairs(g, order);
    if walker.terminalPaths == 0 {
      return Failure(NoWorkspacePath);
    }
    return Success(walker.terminalPaths);
  }

  /** `require_matrix_only_bitmaps_chain`. The returned number is `terminal_paths`: the edges by
      which a reachable marker ends at a workspace member. */
  method RequireMatrixOnlyBitmapsChain(m: Metadata) returns (r: Result<nat, GateError>)
    ensures r.Success? <==> exists target :: ChainAccepted(m, target)
    ensures forall target :: r.Success? && ChainAccepted(m, target) ==>
              r.value == |TerminalPairs(GraphOf(m), ReachableMarkers(GraphOf(m), Marker(target.id, 0)))| > 0
    ensures r.Failure? ==> !NeverRaised(r.error)
  {
    hide Accepts, TerminalPairs, Named, Closed, GraphOf, WellFormed, Represents, ReviewedOnly, IsTarget;
    var checked := MetadataPackages(m);
    if checked.Failure? {
      return Failure(checked.error);
    }
    var g := checked.value;
    RepresentsIsGraphOf(g, m);
    var reviewed := CheckReviewed(m);
    if reviewed.Fail? {
      return Failure(reviewed.error);
    }
    GraphVersionsReviewed(m);
    var bitmaps := Named(m.packages, "bitmaps");
    UniqueTarget(m, bitmaps);
    if |bitmaps| != 1 {
      return Failure(NotExactlyOneBitmaps);
    }
    var target := bitmaps[0];
    if target.version != "3.2.1" {
      return Failure(NotExactlyOneBitmaps);
    }
    CheckedGraph(m, target);
    r := WalkFrom(g, Marker(target.id, 0));
    assert ChainAccepted(m, target) <==> r.Success?;
  }

  lemma CheckedGraph(m: Metadata, target: Package)
    requires WellFormed(m) && target in m.packages
    ensures InUniverse(GraphOf(m), Marker(target.id, 0))
    ensures forall n :: n in GraphOf(m).nodes ==> Distinct(n.dependencies)
    ensures Distinct(NodeIds(GraphOf(m).nodes))
  {
    hide RoleOf;
    var i :| 0 <= i < |m.packages| && m.packages[i] == target;
    assert PackageIds(m.packages)[i] in PackageIds(m.packages);
  }

  lemma UniqueTarget(m: Metadata, bitmaps: seq<Package>)
    requires ReviewedOnly(m) && bitmaps == Named(m.packages, "bitmaps")
    ensures |bitmaps| <= 1
    ensures forall target :: IsTarget(m, target) <==> target in bitmaps
    ensures |bitmaps| == 1 ==> bitmaps[0] in m.packages && bitmaps[0].version == "3.2.1"
  {
    assert RoleOf("bitmaps") == Bitmaps;
    NamedAtMostOne(m.packages, "bitmaps");
    assert AtMostOne(m.packages, "bitmaps") && AllCanonical(m.packages, "bitmaps");
    if |bitmaps| == 1 {
      assert bitmaps[0] in bitmaps;
      assert CanonicalPackage(bitmaps[0]);
    }
  }

  /** The gate in terms of the dependency graph alone: it accepts exactly when the structure and
      the reviewed packages are as demanded and every reverse path has the reviewed shape. */
  lemma AcceptedChainShape(m: Metadata, target: Package)
    requires WellFormed(m)
    ensures Closed(GraphOf(m))
    ensures ChainAccepted(m, target) <==>
            ReviewedOnly(m) && IsTarget(m, target) && AllPathsReviewed(GraphOf(m), target.id)
  {
    GraphClosed(m);
    hide Accepts, AllPathsReviewed, ReviewedOnly, GraphOf, WellFormed, Closed;
    if IsTarget(m, target) {
      TargetIsBitmaps(m, target);
      AcceptanceMeansReviewedPaths(GraphOf(m), target.id);
    }
  }

  lemma TargetIsBitmaps(m: Metadata, target: Package)
    requires WellFormed(m) && IsTarget(m, target)
    ensures target.id in GraphOf(m).packages && target.id in GraphOf(m).roles && GraphOf(m).roles[target.id] == Bitmaps
  {
    var i :| 0 <= i < |m.packages| && m.packages[i] == target;
    assert PackageIds(m.packages)[i] == target.id;
    var found := PackageWith(m.packages, target.id);
    var j :| 0 <= j < |m.packages| && m.packages[j] == found;
    assert PackageIds(m.packages)[i] == PackageIds(m.packages)[j];
  }

  // ---- The exception as a whole --------------------------------------------------------------

  const EXPIRY := 739933 // proleptic Gregorian ordinal of 13 November 2026

  const TEMPORARY_ADVISORIES := ["RUSTSEC-2026-0247", "RUSTSEC-2025-0167"]

  datatype ExceptionState = Active | ClosedState

  datatype ExceptionError = InvalidConfiguration | BitmapsRemains | Expired | Unsynchronized | Chain(error: GateError)

  function Occurrences(ids: seq<string>, id: string): nat {
    multiset(ids)[id]
  }

  /** `Counter` restricted to the temporary advisories is empty. */
  predicate NoneListed(ids: seq<string>) {
    forall id :: id in TEMPORARY_ADVISORIES ==> Occurrences(ids, id) == 0
  }

  predicate EachListedOnce(ids: seq<string>) {
    forall id :: id in TEMPORARY_ADVISORIES ==> Occurrences(ids, id) == 1
  }

  lemma ListedStatesExclude(ids: seq<string>)
    ensures !(NoneListed(ids) && EachListedOnce(ids))
  {
    assert TEMPORARY_ADVISORIES[0] in TEMPORARY_ADVISORIES;
  }

  /** `validate`: exactly one of the two fail-closed states holds, or the gate fails. A missing
      ignore list is `None`. */
  method Validate(audit: Option<seq<string>>, deny: Option<seq<string>>, m: Metadata, today: int)
    returns (r: Result<ExceptionState, ExceptionError>)
    ensures r == Success(ClosedState) <==>
            && audit.Some? && deny.Some? && NoneListed(audit.value) && NoneListed(deny.value)
            && WellFormed(m) && forall p :: p in m.packages ==> p.name != "bitmaps"
    ensures r == Success(Active) <==>
            && audit.Some? && deny.Some? && EachListedOnce(audit.value) && EachListedOnce(deny.value)
            && today < EXPIRY && exists target :: ChainAccepted(m, target)
  {
    hide NoneListed, EachListedOnce, WellFormed, ChainAccepted, Named;
    if audit.None? || deny.None? {
      return Failure(InvalidConfiguration);
    }
    ListedStatesExclude(audit.value);
    if NoneListed(audit.value) && NoneListed(deny.value) {
      var checked := MetadataPackages(m);
      if checked.Failure? {
        return Failure(Chain(checked.error));
      }
      var remaining := Named(m.packages, "bitmaps");
      if remaining != [] {
        assert remaining[0] in remaining;
        return Failure(BitmapsRemains);
      }
      assert forall p :: p in m.packages && p.name == "bitmaps" ==> p in remaining;
      return Success(ClosedState);
    }
    if today >= EXPIRY {
      return Failure(Expired);
    }
    if !EachListedOnce(audit.value) || !EachListedOnce(deny.value) {
      return Failure(Unsynchronized);
    }
    var chain := RequireMatrixOnlyBitmapsChain(m);
    if chain.Failure? {
      return Failure(Chain(chain.error));
    }
    return Success(Active);
  }
}
