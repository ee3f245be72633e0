/** The resolved dependency graph read by the advisory exception gate
    (packaging/advisory_exception_gate.py): its checked form, the reviewed package roles and
    the automaton that the reverse walk follows. */
module AdvisoryGraph {
  import opened Outcomes

  datatype Package = Package(id: string, name: string, version: string, source: Option<string>)

  datatype ResolveNode = ResolveNode(id: string, dependencies: seq<string>)

  datatype Metadata = Metadata(packages: seq<Package>, workspaceMembers: seq<string>, nodes: seq<ResolveNode>)

  datatype GateError =
    | InvalidPackage
    | RepeatedPackage
    | UnknownWorkspaceMember
    | RepeatedWorkspaceMember
    | UnknownNode
    | UnknownDependency
    | RepeatedDependency
    | IncompleteNodes
    | AmbiguousReviewedPackage
    | UnreviewedSourceOrVersion
    | NotExactlyOneBitmaps
    | CyclicPath
    | DeadEnd
    | IllegalParent
    | UnreviewedVersionOnPath
    | NoWorkspacePath

  /** Defensive errors of the source that no metadata can provoke. */
  predicate NeverRaised(e: GateError) {
    e.UnreviewedVersionOnPath? || e.NoWorkspacePath?
  }

  /** Metadata after the structural checks: packages by id with the role of their name,
      workspace members, resolve nodes. */
  datatype Graph = Graph(packages: map<string, Package>, roles: map<string, Role>,
                         workspace: set<string>, nodes: seq<ResolveNode>)

  /** The part a package name plays in the reviewed chain. */
  datatype Role = Bitmaps | SizedChunks | Imbl | EyeballIm | Matrix | Unreviewed

  ghost predicate Distinct<T>(s: seq<T>) {
    forall i, j :: 0 <= i < j < |s| ==> s[i] != s[j]
  }

  ghost function Elements<T>(s: seq<T>): set<T> {
    set x | x in s
  }

  lemma {:induction false} DistinctCount<T>(s: seq<T>)
    ensures |Elements(s)| <= |s|
    ensures |Elements(s)| == |s| <==> Distinct(s)
  {
    if s != [] {
      var front, last := s[..|s| - 1], s[|s| - 1];
      DistinctCount(front);
      assert s == front + [last];
      assert Elements(s) == Elements(front) + {last};
      if Distinct(s) {
        assert last !in front;
      } else if last !in front {
        var i, j :| 0 <= i < j < |s| && s[i] == s[j];
        assert j < |front| && front[i] == front[j];
      }
    }
  }

  // ---- Structural checks -------------------------------------------------------------------

  predicate ValidPackage(p: Package) {
    p.id != "" && p.name != "" && p.version != ""
  }

  ghost function PackageIds(ps: seq<Package>): (ids: seq<string>)
    ensures |ids| == |ps| && forall i :: 0 <= i < |ps| ==> ids[i] == ps[i].id
  {
    seq(|ps|, i requires 0 <= i < |ps| => ps[i].id)
  }

  ghost function NodeIds(ns: seq<ResolveNode>): (ids: seq<string>)
    ensures |ids| == |ns| && forall i :: 0 <= i < |ns| ==> ids[i] == ns[i].id
  {
    seq(|ns|, i requires 0 <= i < |ns| => ns[i].id)
  }

  ghost predicate NodeWellFormed(n: ResolveNode, ids: set<string>) {
    n.id in ids && Elements(n.dependencies) <= ids && Distinct(n.dependencies)
  }

  /** What `_metadata_packages` demands of the metadata. */
  ghost predicate WellFormed(m: Metadata) {
    var ids := Elements(PackageIds(m.packages));
    && (forall p :: p in m.packages ==> ValidPackage(p))
    && Distinct(PackageIds(m.packages))
    && Elements(m.workspaceMembers) <= ids
    && Distinct(m.workspaceMembers)
    && (forall n :: n in m.nodes ==> NodeWellFormed(n, ids))
    && Distinct(NodeIds(m.nodes))
    && Elements(NodeIds(m.nodes)) == ids
  }

  /** The checked graph holds exactly the packages, members and nodes of the metadata. */
  ghost predicate Represents(g: Graph, m: Metadata) {
    && g.packages.Keys == Elements(PackageIds(m.packages))
    && (forall p :: p in m.packages ==> p.id in g.packages && g.packages[p.id] == p)
    && g.roles.Keys == g.packages.Keys
    && (forall id :: id in g.packages ==> g.roles[id] == RoleOf(g.packages[id].name))
    && g.workspace == Elements(m.workspaceMembers)
    && g.nodes == m.nodes
  }

  method CheckNode(n: ResolveNode, ids: set<string>) returns (r: Outcome<GateError>)
    ensures r.Pass? <==> NodeWellFormed(n, ids)
    ensures r.Fail? ==> !NeverRaised(r.error)
  {
    if n.id !in ids {
      return Fail(UnknownNode);
    }
    var typed: set<string> := {};
    for i := 0 to |n.dependencies|
      invariant typed == Elements(n.dependencies[..i]) && typed <= ids
    {
      if n.dependencies[i] !in ids {
        assert n.dependencies[i] in Elements(n.dependencies);
        return Fail(UnknownDependency);
      }
      typed := typed + {n.dependencies[i]};
      assert n.dependencies[..i + 1] == n.dependencies[..i] + [n.dependencies[i]];
    }
    assert n.dependencies[..|n.dependencies|] == n.dependencies;
    DistinctCount(n.dependencies);
    if |n.dependencies| != |typed| {
      return Fail(RepeatedDependency);
    }
    return Pass;
  }

  ghost predicate PackagesIndexed(ps: seq<Package>, index: map<string, Package>) {
    && (forall p :: p in ps ==> p.id in index && index[p.id] == p)
    && index.Keys == Elements(PackageIds(ps))
  }

  lemma NothingIndexed()
    ensures PackagesIndexed([], map[]) && Distinct(PackageIds([]))
  {
  }

  lemma IndexOneMore(ps: seq<Package>, index: map<string, Package>, p: Package)
    requires PackagesIndexed(ps, index) && p.id !in index && Distinct(PackageIds(ps))
    ensures PackagesIndexed(ps + [p], index[p.id := p]) && Distinct(PackageIds(ps + [p]))
  {
    assert PackageIds(ps + [p]) == PackageIds(ps) + [p.id];
    assert p.id !in Elements(PackageIds(ps));
    forall q | q in ps ensures q.id in index && q.id != p.id {
    }
  }

  lemma RepeatedId(ps: seq<Package>, i: nat, index: map<string, Package>)
    requires i < |ps| && PackagesIndexed(ps[..i], index) && ps[i].id in index
    ensures !Distinct(PackageIds(ps))
  {
    var j :| 0 <= j < i && PackageIds(ps[..i])[j] == ps[i].id;
    assert PackageIds(ps)[j] == PackageIds(ps)[i];
  }

  method IndexPackages(ps: seq<Package>) returns (r: Result<map<string, Package>, GateError>)
    ensures r.Success? <==> (forall p :: p in ps ==> ValidPackage(p)) && Distinct(PackageIds(ps))
    ensures r.Success? ==> PackagesIndexed(ps, r.value)
    ensures r.Failure? ==> !NeverRaised(r.error)
  {
    hide PackagesIndexed, Distinct;
    var packages: map<string, Package> := map[];
    NothingIndexed();
    assert ps[..0] == [];
    for i := 0 to |ps|
      invariant forall p :: p in ps[..i] ==> ValidPackage(p)
      invariant PackagesIndexed(ps[..i], packages)
      invariant Distinct(PackageIds(ps[..i]))
    {
      if !ValidPackage(ps[i]) {
        return Failure(InvalidPackage);
      }
      if ps[i].id in packages {
        RepeatedId(ps, i, packages);
        return Failure(RepeatedPackage);
      }
      IndexOneMore(ps[..i], packages, ps[i]);
      assert ps[..i + 1] == ps[..i] + [ps[i]];
      packages := packages[ps[i].id := ps[i]];
    }
    assert ps[..|ps|] == ps;
    return Success(packages);
  }

  method CollectWorkspace(members: seq<string>, ids: set<string>) returns (r: Result<set<string>, GateError>)
    ensures r.Success? <==> Elements(members) <= ids && Distinct(members)
    ensures r.Success? ==> r.value == Elements(members)
    ensures r.Failure? ==> !NeverRaised(r.error)
  {
    var workspace: set<string> := {};
    for i := 0 to |members|
      invariant workspace == Elements(members[..i]) && workspace <= ids
    {
      if members[i] !in ids {
        assert members[i] in Elements(members);
        return Failure(UnknownWorkspaceMember);
      }
      workspace := workspace + {members[i]};
      assert members[..i + 1] == members[..i] + [members[i]];
    }
    assert members[..|members|] == members;
    DistinctCount(members);
    return if |workspace| != |members| then Failure(RepeatedWorkspaceMember) else Success(workspace);
  }

  method CheckNodes(nodes: seq<ResolveNode>, ids: set<string>) returns (r: Outcome<GateError>)
    ensures r.Pass? <==> (forall n :: n in nodes ==> NodeWellFormed(n, ids)) &&
                         Distinct(NodeIds(nodes)) && Elements(NodeIds(nodes)) == ids
    ensures r.Fail? ==> !NeverRaised(r.error)
  {
    var nodeIds: set<string> := {};
    for i := 0 to |nodes|
      invariant forall n :: n in nodes[..i] ==> NodeWellFormed(n, ids)
      invariant nodeIds == Elements(NodeIds(nodes[..i]))
    {
      var checked := CheckNode(nodes[i], ids);
      if checked.Fail? {
        return checked;
      }
      nodeIds := nodeIds + {nodes[i].id};
      assert NodeIds(nodes[..i + 1]) == NodeIds(nodes[..i]) + [nodes[i].id];
    }
    assert nodes[..|nodes|] == nodes;
    DistinctCount(NodeIds(nodes));
    return if |nodes| != |nodeIds| || nodeIds != ids then Fail(IncompleteNodes) else Pass;
  }

  /** `_metadata_packages`: accepts exactly the well-formed metadata and returns its graph. */
  method MetadataPackages(m: Metadata) returns (r: Result<Graph, GateError>)
    ensures r.Success? <==> WellFormed(m)
    ensures r.Success? ==> Represents(r.value, m)
    ensures r.Failure? ==> !NeverRaised(r.error)
  {
    var packages := IndexPackages(m.packages);
    if packages.Failure? {
      return Failure(packages.error);
    }
    var workspace := CollectWorkspace(m.workspaceMembers, packages.value.Keys);
    if workspace.Failure? {
      return Failure(workspace.error);
    }
    var checked := CheckNodes(m.nodes, packages.value.Keys);
    if checked.Fail? {
      return Failure(checked.error);
    }
    var roles := map id | id in packages.value :: RoleOf(packages.value[id].name);
    return Success(Graph(packages.value, roles, workspace.value, m.nodes));
  }

  // ---- Reviewed packages ---------------------------------------------------------------------

  const CRATES_IO := "registry+https://github.com/rust-lang/crates.io-index"

  function RoleOf(name: string): Role {
    if name == "bitmaps" then Bitmaps
    else if name == "imbl-sized-chunks" then SizedChunks
    else if name == "imbl" then Imbl
    else if name == "eyeball-im" then EyeballIm
    else if name in ["matrix-sdk", "matrix-sdk-base", "matrix-sdk-common", "matrix-sdk-crypto",
                     "matrix-sdk-indexeddb", "matrix-sdk-sqlite"] then Matrix
    else Unreviewed
  }

  const REVIEWED_NAMES: seq<string> :=
    ["bitmaps", "imbl", "imbl-sized-chunks", "eyeball-im", "matrix-sdk", "matrix-sdk-base",
     "matrix-sdk-common", "matrix-sdk-crypto", "matrix-sdk-indexeddb", "matrix-sdk-sqlite"]

  function ReviewedVersion(role: Role): Option<string> {
    match role
    case Bitmaps => Some("3.2.1")
    case SizedChunks => Some("0.1.3")
    case Imbl => Some("6.1.0")
    case EyeballIm => Some("0.8.0")
    case Matrix => Some("0.18.0")
    case Unreviewed => None
  }

  lemma ReviewedNamesAreTheRoles(name: string)
    ensures name in REVIEWED_NAMES <==> RoleOf(name) != Unreviewed
  {
    assert name == "imbl" ==> name == REVIEWED_NAMES[1];
    assert name == "bitmaps" ==> name == REVIEWED_NAMES[0];
  }

  /** Packages with a given name, in metadata order. */
  function Named(ps: seq<Package>, name: string): (r: seq<Package>)
    ensures forall p :: p in r <==> p in ps && p.name == name
  {
    if ps == [] then []
    else
      assert ps == [ps[0]] + ps[1..];
      if ps[0].name == name then [ps[0]] + Named(ps[1..], name) else Named(ps[1..], name)
  }

  predicate CanonicalPackage(p: Package) {
    Some(p.version) == ReviewedVersion(RoleOf(p.name)) && p.source == Some(CRATES_IO)
  }

  ghost predicate AtMostOne(ps: seq<Package>, name: string) {
    forall i, j :: 0 <= i < j < |ps| && ps[i].name == name ==> ps[j].name != name
  }

  ghost predicate AllCanonical(ps: seq<Package>, name: string) {
    forall p :: p in ps && p.name == name ==> CanonicalPackage(p)
  }

  /** No two packages share a reviewed name, and each reviewed package is the canonical one. */
  ghost predicate ReviewedOnly(m: Metadata) {
    forall name :: RoleOf(name) != Unreviewed ==> AtMostOne(m.packages, name) && AllCanonical(m.packages, name)
  }

  lemma AtMostOneCons(p: Package, rest: seq<Package>, name: string)
    ensures AtMostOne([p] + rest, name) <==>
            AtMostOne(rest, name) && (p.name == name ==> forall q :: q in rest ==> q.name != name)
  {
    var ps := [p] + rest;
    if AtMostOne(ps, name) {
      forall i, j | 0 <= i < j < |rest| && rest[i].name == name ensures rest[j].name != name {
        assert ps[i + 1] == rest[i] && ps[j + 1] == rest[j];
      }
      if p.name == name {
        forall q | q in rest ensures q.name != name {
          var j :| 0 <= j < |rest| && rest[j] == q;
          assert ps[0].name == name && ps[j + 1] == q;
        }
      }
    }
  }

  lemma {:induction false} NamedAtMostOne(ps: seq<Package>, name: string)
    ensures |Named(ps, name)| <= 1 <==> AtMostOne(ps, name)
  {
    if ps != [] {
      var rest := ps[1..];
      NamedAtMostOne(rest, name);
      AtMostOneCons(ps[0], rest, name);
      assert ps == [ps[0]] + rest;
      var named := Named(rest, name);
      if |named| > 0 {
        assert named[0] in named;
      }
    }
  }

  /** The check of one reviewed name: at most one candidate, and that one canonical. */
  method CheckReviewedName(ps: seq<Package>, name: string) returns (r: Outcome<GateError>)
    ensures r.Pass? <==> AtMostOne(ps, name) && AllCanonical(ps, name)
    ensures r.Fail? ==> !NeverRaised(r.error)
  {
    var candidates := Named(ps, name);
    NamedAtMostOne(ps, name);
    if |candidates| > 1 {
      return Fail(AmbiguousReviewedPackage);
    }
    if |candidates| == 0 {
      return Pass;
    }
    assert candidates[0] in candidates;
    if !CanonicalPackage(candidates[0]) {
      return Fail(UnreviewedSourceOrVersion);
    }
    assert forall p :: p in candidates ==> p == candidates[0];
    return Pass;
  }

  /** The loop over the reviewed names that precedes the walk. */
  method CheckReviewed(m: Metadata) returns (r: Outcome<GateError>)
    ensures r.Pass? <==> ReviewedOnly(m)
    ensures r.Fail? ==> !NeverRaised(r.error)
  {
    for k := 0 to |REVIEWED_NAMES|
      invariant forall n :: 0 <= n < k ==>
        AtMostOne(m.packages, REVIEWED_NAMES[n]) && AllCanonical(m.packages, REVIEWED_NAMES[n])
    {
      var checked := CheckReviewedName(m.packages, REVIEWED_NAMES[k]);
      if checked.Fail? {
        ReviewedNamesAreTheRoles(REVIEWED_NAMES[k]);
        return checked;
      }
    }
    forall name | RoleOf(name) != Unreviewed
      ensures AtMostOne(m.packages, name) && AllCanonical(m.packages, name)
    {
      ReviewedNamesAreTheRoles(name);
    }
    return Pass;
  }

  // ---- Reverse edges and the automaton -------------------------------------------------------

  /** Packages that depend directly on `id`. */
  ghost function Parents(g: Graph, id: string): set<string> {
    set n | n in g.nodes && id in n.dependencies :: n.id
  }

  /** Every dependent is a known package with a role. */
  ghost predicate Closed(g: Graph) {
    && g.roles.Keys == g.packages.Keys
    && (forall id :: Parents(g, id) <= g.packages.Keys)
  }

  ghost predicate VersionReviewed(g: Graph, id: string)
    requires id in g.packages && id in g.roles
  {
    g.roles[id] != Unreviewed ==> Some(g.packages[id].version) == ReviewedVersion(g.roles[id])
  }

  /** Reviewed names carry their reviewed version. */
  ghost predicate VersionsReviewed(g: Graph)
    requires Closed(g)
  {
    forall id :: id in g.packages ==> VersionReviewed(g, id)
  }

  datatype Move = Go(next: int) | Stop | Refuse

  /** One step of the walk: from `state` to a parent with this role and workspace status. */
  function Step(state: int, role: Role, inWorkspace: bool): (move: Move)
    requires 0 <= state <= 4
    ensures move.Go? ==> 1 <= move.next <= 4 && role != Unreviewed
  {
    if state == 0 then
      if role == Imbl then Go(2) else if role == SizedChunks then Go(1) else Refuse
    else if state == 2 then
      if role == EyeballIm then Go(3) else if role == Matrix then Go(4) else Refuse
    else if state == 1 then
      if role == Imbl then Go(2) else Refuse
    else if state == 3 then
      if inWorkspace || role != Matrix then Refuse else Go(4)
    else if inWorkspace then Stop
    else if role != Matrix then Refuse
    else Go(4)
  }

  function StepTo(g: Graph, state: int, parent: string): Move
    requires 0 <= state <= 4 && parent in g.roles
  {
    Step(state, g.roles[parent], parent in g.workspace)
  }

  /** A package together with the automaton state in which the walk entered it. */
  datatype Marker = Marker(id: string, state: int)

  ghost predicate InUniverse(g: Graph, n: Marker) {
    n.id in g.packages && 0 <= n.state <= 4
  }

  ghost predicate MayGo(g: Graph, from: Marker, to: Marker)
    requires Closed(g) && InUniverse(g, from)
  {
    to.id in Parents(g, from.id) && StepTo(g, from.state, to.id) == Go(to.state)
  }

  ghost predicate Expandable(g: Graph, n: Marker)
    requires Closed(g) && InUniverse(g, n)
  {
    && Parents(g, n.id) != {}
    && forall p :: p in Parents(g, n.id) ==> !StepTo(g, n.state, p).Refuse?
  }

  /** A finite path of the product of reversed dependencies and automaton states. */
  ghost predicate Walk(g: Graph, w: seq<Marker>)
    requires Closed(g)
    ensures Walk(g, w) ==> |w| > 0 && forall n :: n in w ==> InUniverse(g, n)
  {
    && |w| > 0 && InUniverse(g, w[|w| - 1])
    && (|w| == 1 || (Walk(g, w[..|w| - 1]) && MayGo(g, w[|w| - 2], w[|w| - 1])))
  }

  lemma WalkSnoc(g: Graph, w: seq<Marker>, n: Marker)
    requires Closed(g) && |w| > 0
    ensures Walk(g, w + [n]) <==> Walk(g, w) && InUniverse(g, n) && MayGo(g, w[|w| - 1], n)
  {
    assert (w + [n])[..|w|] == w;
  }

  /** A path of the walk leads from `root` to `n`. */
  ghost predicate Reaches(g: Graph, root: Marker, n: Marker)
    requires Closed(g)
  {
    exists w :: Walk(g, w) && w[0] == root && w[|w| - 1] == n
  }

  /** The declarative verdict: whatever the walk can reach has a parent, only legal parents, and
      no path meets the same marker twice. */
  ghost predicate Accepts(g: Graph, root: Marker)
    requires Closed(g)
  {
    forall w {:trigger Walk(g, w)} :: Walk(g, w) && w[0] == root ==> Expandable(g, w[|w| - 1]) && Distinct(w)
  }
}
