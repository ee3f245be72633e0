/** Which packages a release distributes: worklist reachability over edges that are not dev-only,
    merged over the release profiles (packaging/generate_rust_notices.py:87-142, 400-419). */
module NoticeReach {
  import opened Outcomes

  datatype Dependency = Dependency(pkg: string, kinds: seq<Option<string>>)

  datatype Node = Node(id: string, deps: seq<Dependency>)

  /** What `local_vendor_provenance` finds for a package without a source. */
  datatype Vendor = NotVendored | Vendored(identity: string) | InvalidVendor

  datatype Package = Package(id: string, name: string, version: string, source: Option<string>, vendor: Vendor)

  datatype Metadata = Metadata(packages: seq<Package>, nodes: seq<Node>)

  datatype NoticeError = MissingRoot | MissingNode | MissingPackage | BadVendor

  /** Name, version and source. */
  type Identity = (string, string, string)

  // ---- Reachability --------------------------------------------------------------------------

  /** An edge is skipped only when it has kinds and all of them are dev. */
  predicate Followed(d: Dependency) {
    d.kinds == [] || exists k :: k in d.kinds && k != Some("dev")
  }

  predicate Edge(nodes: map<string, Node>, a: string, b: string) {
    a in nodes && exists d :: d in nodes[a].deps && d.pkg == b && Followed(d)
  }

  ghost predicate Path(nodes: map<string, Node>, roots: set<string>, p: seq<string>) {
    && |p| > 0
    && if |p| == 1 then p[0] in roots
       else Path(nodes, roots, p[..|p| - 1]) && Edge(nodes, p[|p| - 2], p[|p| - 1])
  }

  ghost predicate Reachable(nodes: map<string, Node>, roots: set<string>, x: string) {
    exists p :: Path(nodes, roots, p) && p[|p| - 1] == x
  }

  ghost predicate ClosedUnder(nodes: map<string, Node>, s: set<string>) {
    forall a, b :: a in s && Edge(nodes, a, b) ==> b in s
  }

  lemma RootReachable(nodes: map<string, Node>, roots: set<string>, x: string)
    requires x in roots
    ensures Reachable(nodes, roots, x)
  {
    assert Path(nodes, roots, [x]) && [x][|[x]| - 1] == x;
  }

  lemma EdgeReachable(nodes: map<string, Node>, roots: set<string>, a: string, b: string)
    requires Reachable(nodes, roots, a) && Edge(nodes, a, b)
    ensures Reachable(nodes, roots, b)
  {
    var p :| Path(nodes, roots, p) && p[|p| - 1] == a;
    var longer := p + [b];
    assert longer[..|longer| - 1] == p;
    assert Path(nodes, roots, longer) && longer[|longer| - 1] == b;
  }

  /** Reachable packages lie in every closed set that contains the roots: they are the least one. */
  lemma {:induction false} ReachableIsLeast(nodes: map<string, Node>, roots: set<string>, s: set<string>, p: seq<string>)
    requires roots <= s && ClosedUnder(nodes, s) && Path(nodes, roots, p)
    ensures p[|p| - 1] in s
  {
    if |p| > 1 {
      ReachableIsLeast(nodes, roots, s, p[..|p| - 1]);
    }
  }

  /** The search is complete: `s` is exactly what the roots reach. */
  ghost predicate IsReachableSet(nodes: map<string, Node>, roots: set<string>, s: set<string>) {
    forall x :: x in s <==> Reachable(nodes, roots, x)
  }

  lemma ClosedAndReached(nodes: map<string, Node>, roots: set<string>, s: set<string>)
    requires roots <= s && ClosedUnder(nodes, s) && forall x :: x in s ==> Reachable(nodes, roots, x)
    ensures IsReachableSet(nodes, roots, s)
  {
    forall x | Reachable(nodes, roots, x) ensures x in s {
      var p :| Path(nodes, roots, p) && p[|p| - 1] == x;
      ReachableIsLeast(nodes, roots, s, p);
    }
  }

  ghost function Mentioned(nodes: map<string, Node>): set<string> {
    set n, d | n in nodes && d in nodes[n].deps :: d.pkg
  }

  /** All dependencies of a processed package that must be followed are in `s`. */
  ghost predicate Processed(nodes: map<string, Node>, s: set<string>, a: string) {
    a in nodes && forall d :: d in nodes[a].deps && Followed(d) ==> d.pkg in s
  }

  /** The inner loop: follow the dependencies of one popped package. */
  method FollowAll(nodes: map<string, Node>, ghost roots: set<string>, node: Node, a: string,
                   reachable: set<string>, queue: seq<string>)
    returns (reachable': set<string>, queue': seq<string>)
    requires a in nodes && nodes[a] == node && Reachable(nodes, roots, a)
    requires forall x :: x in reachable ==> Reachable(nodes, roots, x)
    ensures reachable <= reachable' <= reachable + Mentioned(nodes)
    ensures forall x :: x in reachable' ==> Reachable(nodes, roots, x)
    ensures Processed(nodes, reachable', a)
    ensures queue <= queue' && (forall x :: x in queue' <==> x in queue || x in reachable' - reachable)
    ensures reachable' == reachable ==> queue' == queue
  {
    hide Reachable;
    reachable', queue' := reachable, queue;
    for j := 0 to |node.deps|
      invariant reachable <= reachable' <= reachable + Mentioned(nodes)
      invariant forall x :: x in reachable' ==> Reachable(nodes, roots, x)
      invariant forall i :: 0 <= i < j && Followed(node.deps[i]) ==> node.deps[i].pkg in reachable'
      invariant queue <= queue' && (forall x :: x in queue' <==> x in queue || x in reachable' - reachable)
      invariant reachable' == reachable ==> queue' == queue
    {
      var d := node.deps[j];
      if Followed(d) && d.pkg !in reachable' {
        assert d in nodes[a].deps && d.pkg in Mentioned(nodes);
        EdgeReachable(nodes, roots, a, d.pkg);
        reachable' := reachable' + {d.pkg};
        queue' := queue' + [d.pkg];
      }
    }
  }

  /** A list of the elements of a set, in an order the caller does not control. */
  method AnyOrder(s: set<string>) returns (q: seq<string>)
    ensures forall x :: x in q <==> x in s
  {
    q := [];
    var rest := s;
    while rest != {}
      invariant rest <= s && forall x :: x in q <==> x in s - rest
      decreases rest
    {
      var x :| x in rest;
      q := q + [x];
      rest := rest - {x};
    }
  }

  /** The worklist: exactly the reachable packages, or failure exactly when one has no node. */
  method Search(nodes: map<string, Node>, roots: set<string>) returns (r: Result<set<string>, NoticeError>)
    ensures r.Success? <==> forall x :: Reachable(nodes, roots, x) ==> x in nodes
    ensures r.Success? ==> IsReachableSet(nodes, roots, r.value)
    ensures r.Failure? ==> r.error == MissingNode
  {
    hide Reachable;
    var reachable := roots;
    var queue := AnyOrder(roots);
    forall x | x in roots ensures Reachable(nodes, roots, x) {
      RootReachable(nodes, roots, x);
    }
    while queue != []
      invariant roots <= reachable <= roots + Mentioned(nodes)
      invariant forall x :: x in queue ==> x in reachable
      invariant forall x :: x in reachable ==> Reachable(nodes, roots, x)
      invariant forall x :: x in reachable && x !in queue ==> Processed(nodes, reachable, x)
      decreases roots + Mentioned(nodes) - reachable, |queue|
    {
      var a := queue[|queue| - 1];
      ghost var before := reachable;
      if a !in nodes {
        assert a in reachable;
        return Failure(MissingNode);
      }
      var rest := queue[..|queue| - 1];
      assert queue == rest + [a];
      reachable, queue := FollowAll(nodes, roots, nodes[a], a, reachable, rest);
      forall x | x in reachable && x !in queue ensures Processed(nodes, reachable, x) {
        assert x in before;
        assert x == a || Processed(nodes, before, x);
      }
    }
    ClosedAndReached(nodes, roots, reachable);
    return Success(reachable);
  }

  // ---- One profile ---------------------------------------------------------------------------

  /** A dictionary comprehension over a list: the last entry for a key wins. */
  function PackagesById(ps: seq<Package>): map<string, Package> {
    if ps == [] then map[] else PackagesById(ps[..|ps| - 1])[ps[|ps| - 1].id := ps[|ps| - 1]]
  }

  function NodesById(ns: seq<Node>): map<string, Node> {
    if ns == [] then map[] else NodesById(ns[..|ns| - 1])[ns[|ns| - 1].id := ns[|ns| - 1]]
  }

  function RootNames(gui: bool): set<string> {
    {"neoth", "neoth-migrate", "neoth-relay"} + if gui then {"neothd-gui"} else {}
  }

  /** Unsourced packages with a release root name. */
  function Roots(m: Metadata, gui: bool): set<string> {
    set p | p in m.packages && p.source == None && p.name in RootNames(gui) :: p.id
  }

  /** The identity under which a package is listed; first-party packages are not listed. */
  function ShippedAs(p: Package): Option<Identity> {
    match p.source
    case Some(source) => Some((p.name, p.version, source))
    case None => if p.vendor.Vendored? then Some((p.name, p.version, p.vendor.identity)) else None
  }

  predicate VendorFault(p: Package) {
    p.source == None && p.vendor == InvalidVendor
  }

  ghost predicate InProfile(m: Metadata, gui: bool, x: string) {
    Reachable(NodesById(m.nodes), Roots(m, gui), x)
  }

  /** Some reachable package is shipped under this identity. */
  ghost predicate Ships(m: Metadata, gui: bool, identity: Identity) {
    exists x :: InProfile(m, gui, x) && x in PackagesById(m.packages) && ShippedAs(PackagesById(m.packages)[x]) == Some(identity)
  }

  function FoundRootNames(m: Metadata, gui: bool): set<string> {
    set x | x in Roots(m, gui) && x in PackagesById(m.packages) :: PackagesById(m.packages)[x].name
  }

  /** When a profile resolves: all roots are found, and every reachable package has a node, a
      package entry and usable provenance. */
  ghost predicate ProfileResolves(m: Metadata, gui: bool) {
    && FoundRootNames(m, gui) == RootNames(gui)
    && forall x :: InProfile(m, gui, x) ==>
         x in NodesById(m.nodes) && x in PackagesById(m.packages) && !VendorFault(PackagesById(m.packages)[x])
  }

  /** The final loop of `distribution_packages`, over the reachable set in any order. */
  method ListPackages(packages: map<string, Package>, reachable: set<string>)
    returns (r: Result<map<Identity, Package>, NoticeError>)
    ensures r.Success? <==> forall x :: x in reachable ==> x in packages && !VendorFault(packages[x])
    ensures r.Success? ==> forall i :: i in r.value <==> exists x :: x in reachable && x in packages && ShippedAs(packages[x]) == Some(i)
    ensures r.Success? ==> forall i :: i in r.value ==> ShippedAs(r.value[i]) == Some(i)
  {
    var result: map<Identity, Package> := map[];
    var rest := reachable;
    while rest != {}
      invariant rest <= reachable
      invariant forall x :: x in reachable - rest ==> x in packages && !VendorFault(packages[x])
      invariant forall i :: i in result <==> exists x :: x in reachable - rest && x in packages && ShippedAs(packages[x]) == Some(i)
      invariant forall i :: i in result ==> ShippedAs(result[i]) == Some(i)
      decreases rest
    {
      var x :| x in rest;
      if x !in packages {
        return Failure(MissingPackage);
      }
      if VendorFault(packages[x]) {
        return Failure(BadVendor);
      }
      ghost var done := reachable - rest;
      rest := rest - {x};
      assert reachable - rest == done + {x};
      var shipped := ShippedAs(packages[x]);
      if shipped.Some? {
        result := result[shipped.value := packages[x]];
      }
    }
    return Success(result);
  }

  /** `distribution_packages`. */
  method DistributionPackages(m: Metadata, gui: bool) returns (r: Result<map<Identity, Package>, NoticeError>)
    ensures r.Success? <==> ProfileResolves(m, gui)
    ensures r.Success? ==> forall i :: i in r.value <==> Ships(m, gui, i)
    ensures r.Success? ==> forall i :: i in r.value ==> ShippedAs(r.value[i]) == Some(i)
  {
    hide Reachable, RootNames, Roots, NodesById, PackagesById, ShippedAs;
    var packages, nodes, roots := PackagesById(m.packages), NodesById(m.nodes), Roots(m, gui);
    if FoundRootNames(m, gui) != RootNames(gui) {
      return Failure(MissingRoot);
    }
    var reachable := Search(nodes, roots);
    if reachable.Failure? {
      return Failure(reachable.error);
    }
    r := ListPackages(packages, reachable.value);
    assert forall x :: x in reachable.value <==> InProfile(m, gui, x);
  }

  // ---- All profiles --------------------------------------------------------------------------

  datatype Profile = Profile(target: string, gui: bool, metadata: Metadata)

  datatype Listed = Listed(package: Package, targets: set<string>)

  /** The targets, among the first `n` profiles, whose graph ships the identity. */
  ghost function ShippingTargets(profiles: seq<Profile>, n: int, identity: Identity): set<string>
    requires 0 <= n <= |profiles|
  {
    set k | 0 <= k < n && Ships(profiles[k].metadata, profiles[k].gui, identity) :: profiles[k].target
  }

  /** The merged table lists exactly the shipped identities, each with exactly its targets. */
  ghost predicate Merged(profiles: seq<Profile>, n: int, table: map<Identity, Listed>)
    requires 0 <= n <= |profiles|
  {
    && (forall i :: i in table <==> ShippingTargets(profiles, n, i) != {})
    && (forall i :: i in table ==> table[i].targets == ShippingTargets(profiles, n, i) && ShippedAs(table[i].package) == Some(i))
  }

  /** An entry after its identity was merged in. */
  function MergedEntry(table: map<Identity, Listed>, resolved: map<Identity, Package>, target: string, i: Identity): Listed
    requires i in resolved
  {
    if i in table then Listed(table[i].package, table[i].targets + {target}) else Listed(resolved[i], {target})
  }

  /** `after` is `table` with the identities in `done` merged in. */
  ghost predicate MergesTo(table: map<Identity, Listed>, resolved: map<Identity, Package>, done: set<Identity>,
                           target: string, after: map<Identity, Listed>) {
    && done <= resolved.Keys && after.Keys == table.Keys + done
    && (forall i :: i in done ==> after[i] == MergedEntry(table, resolved, target, i))
    && (forall i :: i in table && i !in done ==> after[i] == table[i])
  }

  lemma MergeStep(profiles: seq<Profile>, k: int, table: map<Identity, Listed>, resolved: map<Identity, Package>,
                  after: map<Identity, Listed>)
    requires 0 <= k < |profiles| && Merged(profiles, k, table)
    requires forall i :: i in resolved <==> Ships(profiles[k].metadata, profiles[k].gui, i)
    requires forall i :: i in resolved ==> ShippedAs(resolved[i]) == Some(i)
    requires MergesTo(table, resolved, resolved.Keys, profiles[k].target, after)
    ensures Merged(profiles, k + 1, after)
  {
    hide Ships, ShippingTargets, ShippedAs;
    forall i: Identity
      ensures i in after <==> ShippingTargets(profiles, k + 1, i) != {}
      ensures i in after ==> after[i].targets == ShippingTargets(profiles, k + 1, i) && ShippedAs(after[i].package) == Some(i)
    {
      OneMoreProfile(profiles, k, i);
      assert i in table <==> ShippingTargets(profiles, k, i) != {};
    }
  }

  /** The inner loop of `resolved_release_packages`: one profile is merged in. */
  method MergeProfile(table: map<Identity, Listed>, resolved: map<Identity, Package>, target: string)
    returns (table': map<Identity, Listed>)
    ensures MergesTo(table, resolved, resolved.Keys, target, table')
  {
    table' := table;
    var rest := resolved.Keys;
    while rest != {}
      invariant rest <= resolved.Keys
      invariant MergesTo(table, resolved, resolved.Keys - rest, target, table')
      decreases rest
    {
      var i :| i in rest;
      if i !in table' {
        table' := table'[i := Listed(resolved[i], {target})];
      } else {
        table' := table'[i := Listed(table'[i].package, table'[i].targets + {target})];
      }
      rest := rest - {i};
    }
  }

  lemma OneMoreProfile(profiles: seq<Profile>, n: int, identity: Identity)
    requires 0 <= n < |profiles|
    ensures ShippingTargets(profiles, n + 1, identity) ==
            ShippingTargets(profiles, n, identity) +
            if Ships(profiles[n].metadata, profiles[n].gui, identity) then {profiles[n].target} else {}
  {
    hide Ships;
  }

  /** `resolved_release_packages`, before the display sort. */
  method ResolvedReleasePackages(profiles: seq<Profile>) returns (r: Result<map<Identity, Listed>, NoticeError>)
    ensures r.Success? <==> forall k :: 0 <= k < |profiles| ==> ProfileResolves(profiles[k].metadata, profiles[k].gui)
    ensures r.Success? ==> Merged(profiles, |profiles|, r.value)
  {
    hide Ships, ProfileResolves, ShippingTargets, ShippedAs, MergesTo, Merged;
    var table: map<Identity, Listed> := map[];
    NoProfiles(profiles);
    for k := 0 to |profiles|
      invariant forall j :: 0 <= j < k ==> ProfileResolves(profiles[j].metadata, profiles[j].gui)
      invariant Merged(profiles, k, table)
    {
      var resolved := DistributionPackages(profiles[k].metadata, profiles[k].gui);
      if resolved.Failure? {
        return Failure(resolved.error);
      }
      var merged := MergeProfile(table, resolved.value, profiles[k].target);
      MergeStep(profiles, k, table, resolved.value, merged);
      table := merged;
    }
    return Success(table);
  }

  lemma NoProfiles(profiles: seq<Profile>)
    ensures Merged(profiles, 0, map[])
  {
  }

  // ---- Which packages those are ----------------------------------------------------------------

  lemma {:induction false} LastPackageWins(ps: seq<Package>, k: nat)
    requires k < |ps| && forall j :: k < j < |ps| ==> ps[j].id != ps[k].id
    ensures ps[k].id in PackagesById(ps) && PackagesById(ps)[ps[k].id] == ps[k]
  {
    if k < |ps| - 1 {
      LastPackageWins(ps[..|ps| - 1], k);
    }
  }

  lemma {:induction false} LastNodeWins(ns: seq<Node>, k: nat)
    requires k < |ns| && forall j :: k < j < |ns| ==> ns[j].id != ns[k].id
    ensures ns[k].id in NodesById(ns) && NodesById(ns)[ns[k].id] == ns[k]
  {
    if k < |ns| - 1 {
      LastNodeWins(ns[..|ns| - 1], k);
    }
  }

  lemma {:induction false} EntriesAreListed(ps: seq<Package>, x: string)
    requires x in PackagesById(ps)
    ensures PackagesById(ps)[x] in ps && PackagesById(ps)[x].id == x
  {
    var front, last := ps[..|ps| - 1], ps[|ps| - 1];
    assert ps == front + [last];
    if x != last.id {
      EntriesAreListed(front, x);
    }
  }

  /** The own packages a release starts from: those without a source under a release name. */
  lemma RootsAre(m: Metadata, gui: bool, p: Package)
    requires p in m.packages && p.source == None
    requires p.name == "neoth" || p.name == "neoth-migrate" || p.name == "neoth-relay" || (gui && p.name == "neothd-gui")
    ensures InProfile(m, gui, p.id)
  {
    hide NodesById;
    RootReachable(NodesById(m.nodes), Roots(m, gui), p.id);
  }

  /** A profile that resolves has a package of its own under every release name. */
  lemma RootsPresent(m: Metadata, gui: bool, name: string)
    requires ProfileResolves(m, gui)
    requires name == "neoth" || name == "neoth-migrate" || name == "neoth-relay" || (gui && name == "neothd-gui")
    ensures exists p :: p in m.packages && p.name == name
  {
    hide NodesById, InProfile, PackagesById;
    assert name in FoundRootNames(m, gui);
    var x :| x in Roots(m, gui) && x in PackagesById(m.packages) && PackagesById(m.packages)[x].name == name;
    EntriesAreListed(m.packages, x);
  }

  /** A dependency that is both normal and dev is shipped, like one without any kind. */
  lemma MixedKindsShip(m: Metadata, gui: bool, a: string, d: Dependency, p: Package)
    requires InProfile(m, gui, a) && a in NodesById(m.nodes) && d in NodesById(m.nodes)[a].deps
    requires d.kinds == [] || d.kinds == [None] || d.kinds == [None, Some("dev")] || d.kinds == [Some("dev"), Some("build")]
    requires d.pkg in PackagesById(m.packages) && PackagesById(m.packages)[d.pkg] == p && p.source.Some?
    ensures Ships(m, gui, (p.name, p.version, p.source.value))
  {
    hide NodesById, PackagesById, Roots, Reachable;
    assert "build" != "dev" by { assert "build"[0] != "dev"[0]; }
    assert None in [None, Some("dev")] && Some("build") in [Some("dev"), Some("build")];
    assert d.kinds != [] ==> exists k :: k in d.kinds && k != Some("dev");
    assert Edge(NodesById(m.nodes), a, d.pkg);
    EdgeReachable(NodesById(m.nodes), Roots(m, gui), a, d.pkg);
  }

  /** Whatever is reached beyond the roots is reached by an edge that has no kinds or some kind other
      than dev: packages behind dev-only edges are not distributed. */
  lemma ReachedByRealEdge(m: Metadata, gui: bool, x: string)
    requires InProfile(m, gui, x) && x !in Roots(m, gui)
    ensures exists a, d :: InProfile(m, gui, a) && a in NodesById(m.nodes) && d in NodesById(m.nodes)[a].deps &&
                           d.pkg == x && !(d.kinds != [] && forall k :: k in d.kinds ==> k == Some("dev"))
  {
    hide NodesById, Roots;
    var p :| Path(NodesById(m.nodes), Roots(m, gui), p) && p[|p| - 1] == x;
    assert |p| > 1;
    var front := p[..|p| - 1];
    assert Path(NodesById(m.nodes), Roots(m, gui), front);
    assert InProfile(m, gui, front[|front| - 1]);
  }

  /** Whatever is listed is a reachable package under its name, version and source, or the
      provenance of a vendored fork; packages of the release itself are not listed. */
  lemma ListedMeans(m: Metadata, gui: bool, i: Identity)
    requires Ships(m, gui, i)
    ensures exists p :: p in m.packages && InProfile(m, gui, p.id) && p.name == i.0 && p.version == i.1 &&
                        (p.source == Some(i.2) || (p.source == None && p.vendor == Vendored(i.2)))
  {
    hide NodesById, PackagesById, Roots, Reachable;
    var x :| InProfile(m, gui, x) && x in PackagesById(m.packages) && ShippedAs(PackagesById(m.packages)[x]) == Some(i);
    EntriesAreListed(m.packages, x);
  }

  /** The release starts from exactly the packages without a source under a release name. */
  lemma RootsExactly(m: Metadata, gui: bool, x: string)
    ensures x in Roots(m, gui) <==>
            exists p :: p in m.packages && p.id == x && p.source == None &&
                        (p.name == "neoth" || p.name == "neoth-migrate" || p.name == "neoth-relay" || (gui && p.name == "neothd-gui"))
  {
  }

  /** A reachable vendored fork is listed under its provenance; one whose provenance is unusable stops
      the profile. */
  lemma VendoredPackages(m: Metadata, gui: bool, x: string, p: Package)
    requires InProfile(m, gui, x) && x in PackagesById(m.packages) && PackagesById(m.packages)[x] == p && p.source == None
    ensures p.vendor.Vendored? ==> Ships(m, gui, (p.name, p.version, p.vendor.identity))
    ensures p.vendor == InvalidVendor ==> !ProfileResolves(m, gui)
  {
    hide NodesById, PackagesById, Roots, Reachable, FoundRootNames;
  }
}
