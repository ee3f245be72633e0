/** Accepted graphs in which a workspace member stands before the end of a path: directly after
    imbl the walk compares names only (packaging/advisory_exception_gate.py:363-379), so a member
    that carries a reviewed Matrix name passes. */
module AdvisoryExample {
  import opened Outcomes
  import opened AdvisoryGraph
  import opened AdvisoryWalk
  import opened AdvisoryShape
  import opened AdvisoryGate

  /** Package ids of bitmaps, imbl, matrix-sdk and an application. */
  datatype Ids = Ids(b: string, i: string, m: string, a: string)

  predicate Proper(x: Ids) {
    && x.b != "" && x.i != "" && x.m != "" && x.a != ""
    && x.b != x.i && x.b != x.m && x.b != x.a && x.i != x.m && x.i != x.a && x.m != x.a
  }

  function BitmapsPackage(x: Ids): Package { Package(x.b, "bitmaps", "3.2.1", Some(CRATES_IO)) }
  function ImblPackage(x: Ids): Package { Package(x.i, "imbl", "6.1.0", Some(CRATES_IO)) }
  function SdkPackage(x: Ids): Package { Package(x.m, "matrix-sdk", "0.18.0", Some(CRATES_IO)) }
  function AppPackage(x: Ids): Package { Package(x.a, "app", "1.0.0", None) }

  function Nodes(x: Ids): seq<ResolveNode> {
    [ResolveNode(x.b, []), ResolveNode(x.i, [x.b]), ResolveNode(x.m, [x.i]), ResolveNode(x.a, [x.m])]
  }

  /** bitmaps <- imbl <- matrix-sdk <- app, the last two being workspace members. */
  function Example(x: Ids): Metadata {
    Metadata([BitmapsPackage(x), ImblPackage(x), SdkPackage(x), AppPackage(x)], [x.m, x.a], Nodes(x))
  }

  function ExampleGraph(x: Ids): Graph {
    Graph(map[x.b := BitmapsPackage(x), x.i := ImblPackage(x), x.m := SdkPackage(x), x.a := AppPackage(x)],
          map[x.b := Bitmaps, x.i := Imbl, x.m := Matrix, x.a := Unreviewed], {x.m, x.a}, Nodes(x))
  }

  lemma ExampleIds(x: Ids)
    ensures PackageIds(Example(x).packages) == [x.b, x.i, x.m, x.a] == NodeIds(Nodes(x))
    ensures Elements([x.b, x.i, x.m, x.a]) == {x.b, x.i, x.m, x.a} && Elements([x.m, x.a]) == {x.m, x.a}
  {
  }

  lemma ExampleNodes(x: Ids)
    requires Proper(x)
    ensures forall n :: n in Nodes(x) ==> NodeWellFormed(n, {x.b, x.i, x.m, x.a})
  {
  }

  lemma ExampleWellFormed(x: Ids)
    requires Proper(x)
    ensures WellFormed(Example(x))
  {
    ExampleIds(x);
    ExampleNodes(x);
    assert forall p :: p in Example(x).packages ==> ValidPackage(p);
    hide NodeWellFormed, ValidPackage;
    var ids := [x.b, x.i, x.m, x.a];
    assert Distinct(ids) && Distinct([x.m, x.a]);
  }

  lemma ExampleRoles()
    ensures RoleOf("bitmaps") == Bitmaps && RoleOf("imbl") == Imbl && RoleOf("matrix-sdk") == Matrix && RoleOf("app") == Unreviewed
    ensures "bitmaps" != "imbl" && "bitmaps" != "matrix-sdk" && "imbl" != "matrix-sdk"
  {
    assert |"bitmaps"| == 7 && |"imbl"| == 4 && |"matrix-sdk"| == 10 && |"app"| == 3;
    assert |"imbl-sized-chunks"| == 17 && |"eyeball-im"| == 10 && "eyeball-im"[0] == 'e' && "matrix-sdk"[0] == 'm';
  }

  lemma ExampleReviewed(x: Ids)
    ensures ReviewedOnly(Example(x))
  {
    ExampleRoles();
    hide RoleOf;
    forall name | RoleOf(name) != Unreviewed
      ensures AtMostOne(Example(x).packages, name) && AllCanonical(Example(x).packages, name) {
    }
  }

  lemma ExampleRepresents(x: Ids)
    requires Proper(x)
    ensures Represents(ExampleGraph(x), Example(x))
  {
    hide RoleOf, Example, ExampleGraph, PackageIds, Elements;
    ExampleRolesFit(x);
    ExamplePackagesFit(x);
    ExampleKeys(x);
  }

  lemma ExampleKeys(x: Ids)
    ensures ExampleGraph(x).packages.Keys == Elements(PackageIds(Example(x).packages))
    ensures ExampleGraph(x).workspace == Elements(Example(x).workspaceMembers) && ExampleGraph(x).nodes == Example(x).nodes
  {
    ExampleIds(x);
    hide BitmapsPackage, ImblPackage, SdkPackage, AppPackage, Nodes;
    assert ExampleGraph(x).packages.Keys == {x.b, x.i, x.m, x.a};
  }

  lemma ExamplePackagesFit(x: Ids)
    requires Proper(x)
    ensures forall p :: p in Example(x).packages ==> p.id in ExampleGraph(x).packages && ExampleGraph(x).packages[p.id] == p
  {
    hide Nodes;
  }

  lemma ExampleRolesFit(x: Ids)
    requires Proper(x)
    ensures ExampleGraph(x).roles.Keys == ExampleGraph(x).packages.Keys
    ensures forall id :: id in ExampleGraph(x).packages ==> ExampleGraph(x).roles[id] == RoleOf(ExampleGraph(x).packages[id].name)
  {
    ExampleRoles();
    hide RoleOf, Nodes;
  }

  lemma ExampleIsGraph(x: Ids)
    requires Proper(x)
    ensures GraphOf(Example(x)) == ExampleGraph(x) && Closed(ExampleGraph(x))
  {
    hide RoleOf, WellFormed, Represents, Closed, GraphOf;
    ExampleWellFormed(x);
    ExampleRepresents(x);
    RepresentsIsGraphOf(ExampleGraph(x), Example(x));
    GraphClosed(Example(x));
  }

  lemma ExampleParents(x: Ids)
    requires Proper(x)
    ensures var g := ExampleGraph(x);
            Parents(g, x.b) == {x.i} && Parents(g, x.i) == {x.m} && Parents(g, x.m) == {x.a}
  {
    var ns := Nodes(x);
    assert ns[1] in ns && ns[2] in ns && ns[3] in ns;
  }

  function FinishingOrder(x: Ids): seq<Marker> {
    [Marker(x.m, 4), Marker(x.i, 2), Marker(x.b, 0)]
  }

  lemma ExampleFinishes(x: Ids)
    requires Proper(x) && Closed(ExampleGraph(x))
    ensures Topological(ExampleGraph(x), FinishingOrder(x))
  {
    ExampleParents(x);
    hide Parents, Closed;
    var order := FinishingOrder(x);
    assert order[..0] == [] && order[..1] == [order[0]] && order[..2] == [order[0], order[1]];
    forall i ensures FinishedAt(ExampleGraph(x), order, i) {
    }
  }

  lemma ExamplePath(x: Ids)
    requires Proper(x) && Closed(ExampleGraph(x))
    ensures var g, p := ExampleGraph(x), [x.b, x.i, x.m];
            ReversePath(g, p) && ReviewedPath(g, p) && !CompletePath(g, p)
  {
    ExampleParents(x);
    hide Parents, Closed;
    var g, p := ExampleGraph(x), [x.b, x.i, x.m];
    assert p[..2] == [x.b, x.i] && [x.b, x.i][..1] == [x.b];
    assert ReversePath(g, [x.b]) && ReversePath(g, [x.b, x.i]);
    assert Roles(g, p[..2]) == [Bitmaps, Imbl];
    assert ReviewedFrom(g, p, 2);
  }

  /** The gate accepts such a graph, and a reviewed path in it ends at a workspace member without
      being complete. */
  lemma EarlyMemberAccepted(x: Ids)
    requires Proper(x)
    ensures ChainAccepted(Example(x), BitmapsPackage(x))
    ensures var g, p := GraphOf(Example(x)), [x.b, x.i, x.m];
            && Closed(g) && ReversePath(g, p) && x.m in g.workspace
            && ReviewedPath(g, p) && !CompletePath(g, p)
  {
    ExampleWellFormed(x);
    ExampleReviewed(x);
    ExampleIsGraph(x);
    hide GraphOf, WellFormed, ReviewedOnly, Closed;
    ExampleFinishes(x);
    FinishedMeansAccepted(ExampleGraph(x), FinishingOrder(x), Marker(x.b, 0));
    hide Topological, Accepts, ReversePath, ReviewedPath, CompletePath;
    ExamplePath(x);
  }
}
