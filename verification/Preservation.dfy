/** The submitted-field relation on JSON values (packaging/n8n_bootstrap_canary.py:339-357): what
    the server may add, and nothing else. */
module Preservation {
  import opened Outcomes

  /** The bits of a double that is neither NaN nor negative zero: for these, equality of floats is
      equality of bits. */
  type Double = b: bv64 | !IsNan(b) && b != 0x8000_0000_0000_0000

  predicate IsNan(b: bv64) {
    b & 0x7FF0_0000_0000_0000 == 0x7FF0_0000_0000_0000 && b & 0x000F_FFFF_FFFF_FFFF != 0
  }

  datatype Json =
    | Null
    | Bool(b: bool)
    | Int(n: int)
    | Float(x: Double)
    | Str(s: string)
    | Arr(items: seq<Json>)
    | Obj(fields: map<string, Json>)

  /** `preserves_submitted_fields`. */
  predicate Preserves(expected: Json, observed: Json) {
    match expected
    case Obj(fields) =>
      observed.Obj? && forall k :: k in fields ==> k in observed.fields && Preserves(fields[k], observed.fields[k])
    case Arr(items) =>
      observed.Arr? && |items| == |observed.items| &&
      forall i :: 0 <= i < |items| ==> Preserves(items[i], observed.items[i])
    case _ => expected == observed
  }

  lemma {:induction false} PreservesReflexive(v: Json)
    ensures Preserves(v, v)
  {
    match v {
      case Obj(fields) =>
        forall k | k in fields ensures Preserves(fields[k], fields[k]) { PreservesReflexive(fields[k]); }
      case Arr(items) =>
        forall i | 0 <= i < |items| ensures Preserves(items[i], items[i]) { PreservesReflexive(items[i]); }
      case _ =>
    }
  }

  lemma {:induction false} PreservesTransitive(a: Json, b: Json, c: Json)
    requires Preserves(a, b) && Preserves(b, c)
    ensures Preserves(a, c)
  {
    match a {
      case Obj(fields) =>
        forall k | k in fields ensures k in c.fields && Preserves(fields[k], c.fields[k]) {
          PreservesTransitive(fields[k], b.fields[k], c.fields[k]);
        }
      case Arr(items) =>
        forall i | 0 <= i < |items| ensures Preserves(items[i], c.items[i]) {
          PreservesTransitive(items[i], b.items[i], c.items[i]);
        }
      case _ =>
    }
  }

  lemma {:induction false} PreservesAntisymmetric(a: Json, b: Json)
    requires Preserves(a, b) && Preserves(b, a)
    ensures a == b
  {
    match a {
      case Obj(fields) =>
        forall k | k in fields ensures k in b.fields && fields[k] == b.fields[k] {
          PreservesAntisymmetric(fields[k], b.fields[k]);
        }
        assert fields == b.fields;
      case Arr(items) =>
        forall i | 0 <= i < |items| ensures items[i] == b.items[i] {
          PreservesAntisymmetric(items[i], b.items[i]);
        }
        assert items == b.items;
      case _ =>
    }
  }

  // ---- Additions -----------------------------------------------------------------------------

  /** `after` is `before` with one new key added to one object, at any depth. */
  ghost predicate AddsOneKey(before: Json, after: Json) {
    match before
    case Obj(fields) =>
      && after.Obj?
      && (|| (exists k :: k !in fields && k in after.fields && after.fields == fields[k := after.fields[k]])
          || (exists k :: k in fields && k in after.fields && after.fields == fields[k := after.fields[k]] &&
                          AddsOneKey(fields[k], after.fields[k])))
    case Arr(items) =>
      && after.Arr? && |after.items| == |items|
      && exists i :: 0 <= i < |items| && after.items == items[i := after.items[i]] && AddsOneKey(items[i], after.items[i])
    case _ => false
  }

  /** A chain of single additions. */
  ghost predicate Additions(chain: seq<Json>) {
    && |chain| > 0
    && (|chain| == 1 || (Additions(chain[..|chain| - 1]) && AddsOneKey(chain[|chain| - 2], chain[|chain| - 1])))
  }

  /** `b` is `a` after finitely many additions. */
  ghost predicate Grows(a: Json, b: Json) {
    exists chain :: Additions(chain) && chain[0] == a && chain[|chain| - 1] == b
  }

  lemma GrowsReflexive(a: Json)
    ensures Grows(a, a)
  {
    var chain := [a];
    assert Additions(chain) && chain[0] == a && chain[|chain| - 1] == a;
  }

  lemma GrowsStep(a: Json, b: Json, c: Json)
    requires Grows(a, b) && AddsOneKey(b, c)
    ensures Grows(a, c)
  {
    var chain :| Additions(chain) && chain[0] == a && chain[|chain| - 1] == b;
    var longer := chain + [c];
    assert longer[..|longer| - 1] == chain;
    assert Additions(longer) && longer[0] == a && longer[|longer| - 1] == c;
  }

  lemma {:induction false} GrowsAlong(a: Json, chain: seq<Json>)
    requires Additions(chain) && Grows(a, chain[0])
    ensures Grows(a, chain[|chain| - 1])
  {
    hide AddsOneKey, Grows;
    if |chain| > 1 {
      GrowsAlong(a, chain[..|chain| - 1]);
      GrowsStep(a, chain[|chain| - 2], chain[|chain| - 1]);
    }
  }

  lemma GrowsTransitive(a: Json, b: Json, c: Json)
    requires Grows(a, b) && Grows(b, c)
    ensures Grows(a, c)
  {
    var chain :| Additions(chain) && chain[0] == b && chain[|chain| - 1] == c;
    GrowsAlong(a, chain);
  }

  /** One addition is preserved. */
  lemma {:induction false} AdditionPreserved(a: Json, b: Json)
    requires AddsOneKey(a, b)
    ensures Preserves(a, b)
  {
    match a {
      case Obj(fields) =>
        forall k | k in fields ensures k in b.fields && Preserves(fields[k], b.fields[k]) {
          PreservesReflexive(fields[k]);
          if fields[k] != b.fields[k] {
            assert AddsOneKey(fields[k], b.fields[k]);
            AdditionPreserved(fields[k], b.fields[k]);
          }
        }
      case Arr(items) =>
        forall i | 0 <= i < |items| ensures Preserves(items[i], b.items[i]) {
          PreservesReflexive(items[i]);
          if items[i] != b.items[i] {
            assert AddsOneKey(items[i], b.items[i]);
            AdditionPreserved(items[i], b.items[i]);
          }
        }
      case _ =>
    }
  }

  lemma {:induction false} ChainPreserved(chain: seq<Json>)
    requires Additions(chain)
    ensures Preserves(chain[0], chain[|chain| - 1])
  {
    hide AddsOneKey, Preserves;
    if |chain| == 1 {
      PreservesReflexive(chain[0]);
    } else {
      var front := chain[..|chain| - 1];
      ChainPreserved(front);
      AdditionPreserved(chain[|chain| - 2], chain[|chain| - 1]);
      PreservesTransitive(chain[0], chain[|chain| - 2], chain[|chain| - 1]);
    }
  }

  // ---- Additions inside a container ----------------------------------------------------------

  lemma {:induction false} LiftField(fields: map<string, Json>, k: string, chain: seq<Json>)
    requires k in fields && Additions(chain) && chain[0] == fields[k]
    ensures Grows(Obj(fields), Obj(fields[k := chain[|chain| - 1]]))
  {
    var last := chain[|chain| - 1];
    if |chain| == 1 {
      assert fields[k := last] == fields;
      GrowsReflexive(Obj(fields));
    } else {
      hide Grows;
      LiftField(fields, k, chain[..|chain| - 1]);
      var before, after := fields[k := chain[|chain| - 2]], fields[k := last];
      assert after == before[k := after[k]] && AddsOneKey(before[k], after[k]);
      assert AddsOneKey(Obj(before), Obj(after));
      GrowsStep(Obj(fields), Obj(before), Obj(after));
    }
  }

  lemma {:induction false} LiftItem(items: seq<Json>, i: nat, chain: seq<Json>)
    requires i < |items| && Additions(chain) && chain[0] == items[i]
    ensures Grows(Arr(items), Arr(items[i := chain[|chain| - 1]]))
  {
    var last := chain[|chain| - 1];
    if |chain| == 1 {
      assert items[i := last] == items;
      GrowsReflexive(Arr(items));
    } else {
      hide Grows;
      LiftItem(items, i, chain[..|chain| - 1]);
      var before, after := items[i := chain[|chain| - 2]], items[i := last];
      assert after == before[i := after[i]] && AddsOneKey(before[i], after[i]);
      assert AddsOneKey(Arr(before), Arr(after));
      GrowsStep(Arr(items), Arr(before), Arr(after));
    }
  }

  /** Keys outside `rest` are final; each key in `rest` is missing or still grows to its target. */
  ghost predicate Fillable(m: map<string, Json>, target: map<string, Json>, rest: set<string>) {
    && m.Keys <= target.Keys && rest <= target.Keys
    && (forall k :: k in target && k !in rest ==> k in m && m[k] == target[k])
    && (forall k :: k in m ==> Grows(m[k], target[k]))
  }

  lemma {:induction false} FillKeys(m: map<string, Json>, target: map<string, Json>, rest: set<string>)
    requires Fillable(m, target, rest)
    ensures Grows(Obj(m), Obj(target))
    decreases rest
  {
    if rest == {} {
      assert m == target;
      GrowsReflexive(Obj(m));
    } else {
      var k :| k in rest;
      var next := m[k := target[k]];
      GrowsReflexive(target[k]);
      assert Fillable(next, target, rest - {k});
      FillKeys(next, target, rest - {k});
      if k in m {
        var chain :| Additions(chain) && chain[0] == m[k] && chain[|chain| - 1] == target[k];
        LiftField(m, k, chain);
      } else {
        assert next == m[k := next[k]];
        assert AddsOneKey(Obj(m), Obj(next));
        GrowsReflexive(Obj(m));
        GrowsStep(Obj(m), Obj(m), Obj(next));
      }
      GrowsTransitive(Obj(m), Obj(next), Obj(target));
    }
  }

  lemma {:induction false} FillItems(items: seq<Json>, target: seq<Json>, done: nat)
    requires |items| == |target| && done <= |items|
    requires forall i :: 0 <= i < done ==> items[i] == target[i]
    requires forall i :: done <= i < |items| ==> Grows(items[i], target[i])
    ensures Grows(Arr(items), Arr(target))
    decreases |items| - done
  {
    if done == |items| {
      assert items == target;
      GrowsReflexive(Arr(items));
    } else {
      var next := items[done := target[done]];
      FillItems(next, target, done + 1);
      var chain :| Additions(chain) && chain[0] == items[done] && chain[|chain| - 1] == target[done];
      LiftItem(items, done, chain);
      GrowsTransitive(Arr(items), Arr(next), Arr(target));
    }
  }

  lemma {:induction false} PreservedGrows(a: Json, b: Json)
    requires Preserves(a, b)
    ensures Grows(a, b)
  {
    hide Grows;
    match a {
      case Obj(fields) =>
        forall k | k in fields ensures Grows(fields[k], b.fields[k]) {
          PreservedGrows(fields[k], b.fields[k]);
        }
        FillKeys(fields, b.fields, b.fields.Keys);
      case Arr(items) =>
        forall i | 0 <= i < |items| ensures Grows(items[i], b.items[i]) {
          PreservedGrows(items[i], b.items[i]);
        }
        FillItems(items, b.items, 0);
      case _ => GrowsReflexive(a);
    }
  }

  /** A response preserves the submitted value exactly when it is the submitted value after
      finitely many additions of keys that were not submitted. */
  lemma PreservesMeansAdditions(a: Json, b: Json)
    ensures Preserves(a, b) <==> Grows(a, b)
  {
    if Preserves(a, b) {
      PreservedGrows(a, b);
    }
    if Grows(a, b) {
      var chain :| Additions(chain) && chain[0] == a && chain[|chain| - 1] == b;
      ChainPreserved(chain);
    }
  }

  // ---- Workflow match ------------------------------------------------------------------------

  function Get(fields: map<string, Json>, key: string): Json {
    if key in fields then fields[key] else Null
  }

  /** `workflow_matches_payload`; `dumps` is `json.dumps(…, sort_keys=True)`. A payload without
      nodes or connections raises `KeyError`. */
  function WorkflowMatches(payload: map<string, Json>, observed: map<string, Json>, dumps: Json -> string): Option<bool> {
    if "nodes" !in payload then None
    else if dumps(payload["nodes"]) != dumps(Get(observed, "nodes")) then Some(false)
    else if "connections" !in payload then None
    else if dumps(payload["connections"]) != dumps(Get(observed, "connections")) then Some(false)
    else Some(Preserves(Obj(payload), Obj(observed)))
  }

  /** With an injective serialisation a match means: nodes and connections are returned unchanged
      and everything else only grew. */
  lemma MatchMeansUnchangedGraph(payload: map<string, Json>, observed: map<string, Json>, dumps: Json -> string)
    requires Injective(dumps)
    requires "nodes" in payload && "connections" in payload
    ensures WorkflowMatches(payload, observed, dumps) == Some(true) <==>
            && "nodes" in observed && observed["nodes"] == payload["nodes"]
            && "connections" in observed && observed["connections"] == payload["connections"]
            && Grows(Obj(payload), Obj(observed))
  {
    hide Grows;
    PreservesMeansAdditions(Obj(payload), Obj(observed));
  }

  /** A payload without nodes raises, and so does one without connections unless the nodes differ. */
  lemma MissingFieldRaises(payload: map<string, Json>, observed: map<string, Json>, dumps: Json -> string)
    ensures WorkflowMatches(payload, observed, dumps).None? <==>
            || "nodes" !in payload
            || ("connections" !in payload &&
                dumps(payload["nodes"]) == dumps(if "nodes" in observed then observed["nodes"] else Null))
  {
  }
}
