/** What an accepted gate means for plain reverse dependency paths, without the automaton:
    every path from bitmaps, cut where it first ends at a workspace member, spells bitmaps, an
    optional imbl-sized-chunks, imbl, an optional eyeball-im, reviewed Matrix packages and the
    workspace member (packaging/advisory_exception_gate.py:292-417). */
module AdvisoryShape {
  import opened AdvisoryGraph

  /** A path of dependents: each package is depended on by the next. */
  ghost predicate ReversePath(g: Graph, p: seq<string>)
    ensures ReversePath(g, p) ==> |p| > 0 && forall id :: id in p ==> id in g.packages
  {
    && |p| > 0 && p[|p| - 1] in g.packages
    && (|p| == 1 || (ReversePath(g, p[..|p| - 1]) && p[|p| - 1] in Parents(g, p[|p| - 2])))
  }

  ghost function Roles(g: Graph, p: seq<string>): (rs: seq<Role>)
    requires forall id :: id in p ==> id in g.roles
    ensures |rs| == |p| && forall i :: 0 <= i < |p| ==> rs[i] == g.roles[p[i]]
  {
    seq(|p|, i requires 0 <= i < |p| => g.roles[p[i]])
  }

  /** The part of a reviewed path before its Matrix packages. */
  predicate Stem(rs: seq<Role>) {
    || rs == [Bitmaps]
    || rs == [Bitmaps, SizedChunks]
    || rs == [Bitmaps, Imbl]
    || rs == [Bitmaps, SizedChunks, Imbl]
    || rs == [Bitmaps, Imbl, EyeballIm]
    || rs == [Bitmaps, SizedChunks, Imbl, EyeballIm]
  }

  /** After a stem of length `k` that reached imbl or eyeball-im come only Matrix packages. A
      workspace member may stand only directly after imbl, where the walk looks at names alone. */
  ghost predicate ReviewedFrom(g: Graph, p: seq<string>, k: int)
    requires forall id :: id in p ==> id in g.roles
  {
    && 1 <= k <= |p| && Stem(Roles(g, p[..k]))
    && (k < |p| ==> g.roles[p[k - 1]] == Imbl || g.roles[p[k - 1]] == EyeballIm)
    && (forall i :: k <= i < |p| ==> g.roles[p[i]] == Matrix)
    && (forall i :: k <= i < |p| && p[i] in g.workspace ==> i == k && g.roles[p[k - 1]] == Imbl)
  }

  ghost predicate ReviewedPath(g: Graph, p: seq<string>)
    requires forall id :: id in p ==> id in g.roles
  {
    exists k :: ReviewedFrom(g, p, k)
  }

  /** A reviewed path that has reached a Matrix package, followed by a workspace member. */
  ghost predicate CompletePath(g: Graph, p: seq<string>)
    requires forall id :: id in p ==> id in g.roles
  {
    && |p| > 1 && p[|p| - 1] in g.workspace
    && g.roles[p[|p| - 2]] == Matrix && ReviewedPath(g, p[..|p| - 1])
  }

  /** No proper prefix is complete. */
  ghost predicate Uncut(g: Graph, p: seq<string>)
    requires forall id :: id in p ==> id in g.roles
  {
    forall k :: 0 < k < |p| ==> !CompletePath(g, p[..k])
  }

  // ---- The automaton on paths ----------------------------------------------------------------

  datatype Position = At(state: int) | Cut | Off

  ghost function Run(g: Graph, p: seq<string>): (r: Position)
    requires Closed(g) && ReversePath(g, p)
    ensures r.At? ==> 0 <= r.state <= 4
  {
    if |p| == 1 then At(0)
    else
      match Run(g, p[..|p| - 1])
      case At(state) =>
        (match StepTo(g, state, p[|p| - 1])
         case Go(next) => At(next)
         case Stop => Cut
         case Refuse => Off)
      case _ => Off
  }

  function StateFor(role: Role): int {
    match role
    case Bitmaps => 0
    case SizedChunks => 1
    case Imbl => 2
    case EyeballIm => 3
    case Matrix => 4
    case Unreviewed => -1
  }

  lemma RunStateByRole(g: Graph, p: seq<string>)
    requires Closed(g) && ReversePath(g, p) && g.roles[p[0]] == Bitmaps && Run(g, p).At?
    ensures Run(g, p).state == StateFor(g.roles[p[|p| - 1]])
  {
  }

  lemma {:induction false} ReviewedFront(g: Graph, p: seq<string>)
    requires (forall id :: id in p ==> id in g.roles) && |p| > 1 && ReviewedPath(g, p)
    ensures ReviewedPath(g, p[..|p| - 1])
  {
    var k :| ReviewedFrom(g, p, k);
    var front := p[..|p| - 1];
    if k == |p| {
      assert p[..k] == p;
      assert Roles(g, front) == Roles(g, p)[..|p| - 1];
      assert front[..k - 1] == front;
      assert ReviewedFrom(g, front, k - 1);
    } else {
      assert front[..k] == p[..k];
      assert ReviewedFrom(g, front, k);
    }
  }

  lemma {:induction false} ReviewedExtends(g: Graph, p: seq<string>, last: string)
    requires Closed(g) && ReversePath(g, p) && last in g.packages && ReviewedPath(g, p)
    requires var state := StateFor(g.roles[p[|p| - 1]]); 0 <= state <= 4 && StepTo(g, state, last).Go?
    ensures ReviewedPath(g, p + [last])
  {
    hide ReversePath, Parents;
    var k :| ReviewedFrom(g, p, k);
    var longer := p + [last];
    assert longer[..k] == p[..k];
    if g.roles[last] == Matrix {
      assert ReviewedFrom(g, longer, k);
    } else {
      assert k == |p| && p[..k] == p;
      assert Roles(g, longer) == Roles(g, p) + [g.roles[last]];
      assert longer[..|longer|] == longer;
      assert ReviewedFrom(g, longer, |longer|);
    }
  }

  lemma {:induction false} ReviewedAllows(g: Graph, p: seq<string>, last: string)
    requires Closed(g) && ReversePath(g, p) && last in g.packages && ReviewedPath(g, p + [last])
    requires 0 <= StateFor(g.roles[p[|p| - 1]]) <= 4
    ensures StepTo(g, StateFor(g.roles[p[|p| - 1]]), last).Go?
  {
    hide ReversePath, Parents;
    var longer := p + [last];
    var k :| ReviewedFrom(g, longer, k);
    if k == |longer| {
      assert longer[..k] == longer;
      var rs := Roles(g, longer);
      assert rs[|p|] == g.roles[last] && rs[|p| - 1] == g.roles[p[|p| - 1]];
    } else {
      assert longer[|p|] == last && longer[|p| - 1] == p[|p| - 1];
    }
  }

  /** The automaton follows a path exactly as long as it is reviewed, and cuts it exactly when
      it is complete. */
  lemma {:induction false} RunSpells(g: Graph, p: seq<string>)
    requires Closed(g) && ReversePath(g, p) && g.roles[p[0]] == Bitmaps
    ensures Run(g, p).At? <==> ReviewedPath(g, p)
    ensures Run(g, p) == Cut <==> CompletePath(g, p)
  {
    if |p| == 1 {
      assert p[..1] == p && Roles(g, p) == [Bitmaps];
      assert ReviewedFrom(g, p, 1);
    } else {
      var front, last := p[..|p| - 1], p[|p| - 1];
      assert p == front + [last];
      RunSpells(g, front);
      if ReviewedPath(g, p) {
        ReviewedFront(g, p);
      }
      if Run(g, front).At? {
        RunStateByRole(g, front);
        if StepTo(g, Run(g, front).state, last).Go? {
          ReviewedExtends(g, front, last);
        }
        if ReviewedPath(g, p) {
          ReviewedAllows(g, front, last);
        }
      }
    }
  }

  // ---- Paths and walks -----------------------------------------------------------------------

  ghost function Ids(w: seq<Marker>): (p: seq<string>)
    ensures |p| == |w| && forall i :: 0 <= i < |w| ==> p[i] == w[i].id
  {
    seq(|w|, i requires 0 <= i < |w| => w[i].id)
  }

  /** A path the automaton follows is a walk of the product graph. */
  lemma {:induction false} RunIsWalk(g: Graph, p: seq<string>) returns (w: seq<Marker>)
    requires Closed(g) && ReversePath(g, p) && Run(g, p).At?
    ensures Walk(g, w) && Ids(w) == p && w[0] == Marker(p[0], 0)
    ensures w[|w| - 1] == Marker(p[|p| - 1], Run(g, p).state)
  {
    hide Run, ReversePath, Parents, MayGo, Walk, Ids, InUniverse;
    var n := Marker(p[|p| - 1], Run(g, p).state);
    if |p| == 1 {
      w := [n];
      SingleRun(g, p, n);
    } else {
      RunMoves(g, p);
      var front := RunIsWalk(g, p[..|p| - 1]);
      WalkSnoc(g, front, n);
      w := front + [n];
      IdsSnoc(front, n);
      assert p == p[..|p| - 1] + [p[|p| - 1]];
    }
  }

  lemma SingleRun(g: Graph, p: seq<string>, n: Marker)
    requires Closed(g) && ReversePath(g, p) && |p| == 1 && Run(g, p).At? && n == Marker(p[0], Run(g, p).state)
    ensures n.state == 0 && Walk(g, [n]) && Ids([n]) == p
  {
    hide Parents;
  }

  lemma IdsSnoc(w: seq<Marker>, n: Marker)
    ensures Ids(w + [n]) == Ids(w) + [n.id]
  {
  }

  /** The last step of a path the automaton follows is a move of the product graph. */
  lemma RunMoves(g: Graph, p: seq<string>)
    requires Closed(g) && ReversePath(g, p) && Run(g, p).At? && |p| > 1
    ensures var front := p[..|p| - 1];
            && ReversePath(g, front) && Run(g, front).At?
            && InUniverse(g, Marker(front[|front| - 1], Run(g, front).state))
            && InUniverse(g, Marker(p[|p| - 1], Run(g, p).state))
            && MayGo(g, Marker(front[|front| - 1], Run(g, front).state), Marker(p[|p| - 1], Run(g, p).state))
  {
    hide Parents;
  }

  lemma {:induction false} WalkPrefix(g: Graph, w: seq<Marker>, k: nat)
    requires Closed(g) && Walk(g, w) && 0 < k <= |w|
    ensures Walk(g, w[..k])
  {
    hide MayGo, InUniverse;
    if k == |w| {
      assert w[..k] == w;
    } else {
      WalkPrefix(g, w[..|w| - 1], k);
      assert w[..|w| - 1][..k] == w[..k];
    }
  }

  /** One more move of the product graph is one more step of the automaton. */
  lemma MoveRuns(g: Graph, p: seq<string>, from: Marker, to: Marker)
    requires Closed(g) && ReversePath(g, p) && p[|p| - 1] == from.id && Run(g, p) == At(from.state)
    requires InUniverse(g, from) && InUniverse(g, to) && MayGo(g, from, to)
    ensures ReversePath(g, p + [to.id]) && Run(g, p + [to.id]) == At(to.state)
  {
    hide Parents;
    var longer := p + [to.id];
    assert longer[..|p|] == p && longer[|p|] == to.id;
  }

  /** A walk from state 0 is a path the automaton follows. */
  lemma {:induction false} WalkRuns(g: Graph, w: seq<Marker>)
    requires Closed(g) && Walk(g, w) && w[0].state == 0
    ensures ReversePath(g, Ids(w)) && Run(g, Ids(w)) == At(w[|w| - 1].state)
  {
    if |w| == 1 {
      assert Ids(w) == [w[0].id];
    } else {
      var front, last := w[..|w| - 1], w[|w| - 1];
      assert w == front + [last];
      WalkRuns(g, front);
      IdsSnoc(front, last);
      hide Run, ReversePath, MayGo, Ids, InUniverse;
      MoveRuns(g, Ids(front), front[|front| - 1], last);
    }
  }

  lemma PrefixRuns(g: Graph, w: seq<Marker>, k: nat)
    requires Closed(g) && Walk(g, w) && w[0].state == 0 && w[0].id in g.roles && g.roles[w[0].id] == Bitmaps && 0 < k <= |w|
    ensures ReversePath(g, Ids(w)[..k]) && Run(g, Ids(w)[..k]) == At(w[k - 1].state)
    ensures w[k - 1].id in g.roles && w[k - 1].state == StateFor(g.roles[w[k - 1].id])
  {
    hide Run, ReversePath, Walk, StateFor, Ids;
    WalkPrefix(g, w, k);
    WalkRuns(g, w[..k]);
    assert Ids(w[..k]) == Ids(w)[..k];
    RunStateByRole(g, Ids(w[..k]));
  }

  /** A walk from state 0 is a path the automaton follows, in the state given by each name. */
  lemma WalkIsRun(g: Graph, w: seq<Marker>)
    requires Closed(g) && Walk(g, w) && w[0].state == 0 && w[0].id in g.roles && g.roles[w[0].id] == Bitmaps
    ensures ReversePath(g, Ids(w)) && Run(g, Ids(w)) == At(w[|w| - 1].state)
    ensures forall i :: 0 <= i < |w| ==> w[i].state == StateFor(g.roles[w[i].id])
    ensures forall k :: 0 < k < |w| ==> ReversePath(g, Ids(w)[..k]) && Run(g, Ids(w)[..k]).At?
  {
    hide Run, ReversePath, Walk, StateFor, Ids;
    WalkRuns(g, w);
    forall k | 0 < k < |w| ensures ReversePath(g, Ids(w)[..k]) && Run(g, Ids(w)[..k]).At? {
      PrefixRuns(g, w, k);
    }
    forall i | 0 <= i < |w| ensures w[i].state == StateFor(g.roles[w[i].id]) {
      PrefixRuns(g, w, i + 1);
    }
  }

  lemma DistinctIds(g: Graph, w: seq<Marker>)
    requires forall i :: 0 <= i < |w| ==> w[i].id in g.roles && w[i].state == StateFor(g.roles[w[i].id])
    ensures Distinct(w) <==> Distinct(Ids(w))
  {
    if Distinct(w) {
      forall i, j | 0 <= i < j < |w| ensures Ids(w)[i] != Ids(w)[j] {
        assert w[i] != w[j];
      }
    } else {
      var i, j :| 0 <= i < j < |w| && w[i] == w[j];
      assert Ids(w)[i] == Ids(w)[j];
    }
  }

  // ---- The meaning of acceptance -------------------------------------------------------------

  /** The verdict on one uncut path: it is complete, or reviewed so far, without repetition, and
      continued by at least one further dependent. */
  ghost predicate PathVerdict(g: Graph, p: seq<string>)
    requires ReversePath(g, p) && forall id :: id in p ==> id in g.roles
  {
    CompletePath(g, p) || (ReviewedPath(g, p) && Distinct(p) && Parents(g, p[|p| - 1]) != {})
  }

  lemma {:induction false} AcceptedPath(g: Graph, p: seq<string>)
    requires Closed(g) && ReversePath(g, p) && g.roles[p[0]] == Bitmaps
    requires Accepts(g, Marker(p[0], 0)) && Uncut(g, p)
    ensures PathVerdict(g, p)
  {
    RunSpells(g, p);
    if |p| > 1 {
      var front := p[..|p| - 1];
      assert Uncut(g, front) by {
        forall k | 0 < k < |front| ensures !CompletePath(g, front[..k]) {
          assert front[..k] == p[..k];
        }
      }
      AcceptedPath(g, front);
      RunSpells(g, front);
      assert p[..|front|] == front && !CompletePath(g, front);
      var w := RunIsWalk(g, front);
      assert Expandable(g, w[|w| - 1]);
    }
    if Run(g, p).At? {
      var w := RunIsWalk(g, p);
      WalkIsRun(g, w);
      DistinctIds(g, w);
      assert Expandable(g, w[|w| - 1]) && Distinct(w);
    }
  }

  ghost predicate AllPathsReviewed(g: Graph, target: string)
    requires Closed(g)
  {
    forall p {:trigger ReversePath(g, p)} ::
      ReversePath(g, p) && p[0] == target && Uncut(g, p) ==> PathVerdict(g, p)
  }

  lemma WalkUncut(g: Graph, w: seq<Marker>)
    requires Closed(g) && Walk(g, w) && w[0].state == 0 && w[0].id in g.roles && g.roles[w[0].id] == Bitmaps
    ensures ReversePath(g, Ids(w)) && Uncut(g, Ids(w)) && !CompletePath(g, Ids(w))
  {
    WalkIsRun(g, w);
    var p := Ids(w);
    RunSpells(g, p);
    forall k | 0 < k < |p| ensures !CompletePath(g, p[..k]) {
      RunSpells(g, p[..k]);
    }
  }

  /** One dependent more keeps a path uncut. */
  lemma UncutExtends(g: Graph, p: seq<string>, q: string)
    requires Closed(g) && ReversePath(g, p) && Uncut(g, p) && !CompletePath(g, p) && q in Parents(g, p[|p| - 1])
    ensures ReversePath(g, p + [q]) && Uncut(g, p + [q])
  {
    hide CompletePath;
    var longer := p + [q];
    assert longer[..|p|] == p;
    assert ReversePath(g, longer);
    forall k | 0 < k < |longer| ensures !CompletePath(g, longer[..k]) {
      assert longer[..k] == p[..k];
      assert k == |p| ==> p[..k] == p;
    }
  }

  /** A reviewed extension is a move the automaton does not refuse. */
  lemma ParentAllowed(g: Graph, p: seq<string>, q: string)
    requires Closed(g) && ReversePath(g, p) && g.roles[p[0]] == Bitmaps && Run(g, p).At?
    requires ReversePath(g, p + [q]) && PathVerdict(g, p + [q])
    ensures !StepTo(g, Run(g, p).state, q).Refuse?
  {
    var longer := p + [q];
    RunSpells(g, longer);
    assert longer[..|longer| - 1] == p && longer[|longer| - 1] == q;
    hide ReviewedPath, CompletePath, ReversePath, Parents, Distinct;
  }

  lemma ReviewedWalk(g: Graph, w: seq<Marker>)
    requires Closed(g) && Walk(g, w) && w[0].state == 0 && w[0].id in g.roles && g.roles[w[0].id] == Bitmaps
    requires AllPathsReviewed(g, w[0].id)
    ensures Expandable(g, w[|w| - 1]) && Distinct(w)
  {
    hide Uncut, CompletePath, ReviewedPath, Walk, Run, Distinct, Ids, StepTo, ReversePath;
    var p := Ids(w);
    WalkIsRun(g, w);
    WalkUncut(g, w);
    assert PathVerdict(g, p);
    DistinctIds(g, w);
    var n := w[|w| - 1];
    forall q | q in Parents(g, n.id) ensures !StepTo(g, n.state, q).Refuse? {
      UncutExtends(g, p, q);
      FirstKept(p, q);
      assert PathVerdict(g, p + [q]);
      ParentAllowed(g, p, q);
    }
  }

  lemma FirstKept(p: seq<string>, q: string)
    requires p != []
    ensures (p + [q])[0] == p[0]
  {
  }

  /** The gate accepts exactly when every reverse path from bitmaps, cut at the first workspace
      member after a Matrix package, has the reviewed shape, repeats no package and is never
      stuck before such a member. */
  lemma AcceptanceMeansReviewedPaths(g: Graph, target: string)
    requires Closed(g) && target in g.packages && g.roles[target] == Bitmaps
    ensures Accepts(g, Marker(target, 0)) <==> AllPathsReviewed(g, target)
  {
    if Accepts(g, Marker(target, 0)) {
      forall p {:trigger ReversePath(g, p)} | ReversePath(g, p) && p[0] == target && Uncut(g, p)
        ensures PathVerdict(g, p)
      {
        AcceptedPath(g, p);
      }
    }
    if AllPathsReviewed(g, target) {
      forall w {:trigger Walk(g, w)} | Walk(g, w) && w[0] == Marker(target, 0)
        ensures Expandable(g, w[|w| - 1]) && Distinct(w)
      {
        ReviewedWalk(g, w);
      }
    }
  }

  /** On acceptance a workspace member before the end of a path has a reviewed name, and among the
      Matrix packages it can only be the one directly after imbl. */
  lemma EarlyMembers(g: Graph, target: string, p: seq<string>, i: nat)
    requires Closed(g) && AllPathsReviewed(g, target)
    requires ReversePath(g, p) && p[0] == target && Uncut(g, p) && !CompletePath(g, p) && i < |p| && p[i] in g.workspace
    ensures g.roles[p[i]] != Unreviewed && (g.roles[p[i]] == Matrix ==> i > 0 && g.roles[p[i - 1]] == Imbl)
  {
    hide Parents, Uncut, CompletePath;
    assert PathVerdict(g, p);
    var k :| ReviewedFrom(g, p, k);
    if i < k {
      StemRoles(g, p[..k], i);
    }
  }

  lemma StemRoles(g: Graph, stem: seq<string>, i: nat)
    requires (forall id :: id in stem ==> id in g.roles) && Stem(Roles(g, stem)) && i < |stem|
    ensures g.roles[stem[i]] != Unreviewed && g.roles[stem[i]] != Matrix
  {
    assert Roles(g, stem)[i] == g.roles[stem[i]];
  }

  /** Accepted paths are finite: an uncut path has at most one package more than the graph. */
  lemma AcceptedPathsAreBounded(g: Graph, target: string, p: seq<string>)
    requires Closed(g) && AllPathsReviewed(g, target)
    requires ReversePath(g, p) && p[0] == target && Uncut(g, p) && !CompletePath(g, p)
    ensures |p| <= |g.packages|
  {
    assert PathVerdict(g, p);
    DistinctCount(p);
    SubsetSize(Elements(p), g.packages.Keys);
    assert |g.packages.Keys| == |g.packages|;
  }

  lemma {:induction false} SubsetSize<T>(a: set<T>, b: set<T>)
    requires a <= b
    ensures |a| <= |b|
  {
    if a != {} {
      var x :| x in a;
      SubsetSize(a - {x}, b - {x});
    }
  }
}
