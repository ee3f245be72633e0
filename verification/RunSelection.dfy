/** Selection of the newest exact-head workflow run (packaging/release_gate_contract.py:18-146):
    an older green run never hides a newer run that is pending or failed. */
module RunSelection {
  import opened Outcomes

  datatype Run = Run(id: int, headSha: Option<string>, startedAt: Option<string>, createdAt: Option<string>,
                     updatedAt: Option<string>, attempt: int, status: string, conclusion: string)

  datatype GateError = InvalidAge | NoRun | InvalidRun | NotCompleted | NotSuccessful | FromFuture | TooOld

  /** Timestamp parsing to seconds in UTC, case folding, and the arguments of the query. */
  datatype Query = Query(parse: string -> Option<int>, lower: string -> string, head: string, maxAge: int, now: int)

  // ---- Chronology ----------------------------------------------------------------------------

  /** Python's `a or b` on optional strings. */
  function Or(a: Option<string>, b: Option<string>): Option<string> {
    if a.Some? && a.value != "" then a else b
  }

  function ParseTime(value: Option<string>, q: Query): Option<int> {
    if value.None? || value.value == "" then None else q.parse(value.value)
  }

  datatype Key = Key(started: int, updated: int, attempt: int, id: int)

  function Completed(r: Run, q: Query): Option<int> {
    ParseTime(Or(Or(r.updatedAt, r.startedAt), r.createdAt), q)
  }

  /** `_chronology_key`; `None` is any of its errors. */
  function ChronologyKey(r: Run, q: Query): Option<Key> {
    var started, updated := ParseTime(Or(r.startedAt, r.createdAt), q), Completed(r, q);
    if started.None? || updated.None? || r.attempt < 0 || r.id <= 0 then None
    else Some(Key(started.value, updated.value, r.attempt, r.id))
  }

  /** Tuple order. */
  predicate Before(a: Key, b: Key) {
    || a.started < b.started
    || (a.started == b.started &&
        (|| a.updated < b.updated
         || (a.updated == b.updated && (a.attempt < b.attempt || (a.attempt == b.attempt && a.id < b.id)))))
  }

  lemma BeforeIsStrictTotalOrder()
    ensures forall a, b :: Before(a, b) || Before(b, a) || a == b
    ensures forall a, b :: Before(a, b) ==> !Before(b, a)
    ensures forall a, b, c :: Before(a, b) && Before(b, c) ==> Before(a, c)
  {
  }

  // ---- Selection -----------------------------------------------------------------------------

  predicate Matches(r: Run, q: Query) {
    r.headSha.Some? && q.lower(r.headSha.value) == q.lower(q.head)
  }

  function Flatten(pages: seq<seq<Run>>): seq<Run> {
    if pages == [] then [] else Flatten(pages[..|pages| - 1]) + pages[|pages| - 1]
  }

  function Matching(runs: seq<Run>, q: Query): (m: seq<Run>)
    ensures forall r :: r in m <==> r in runs && Matches(r, q)
  {
    if runs == [] then []
    else
      assert runs == runs[..|runs| - 1] + [runs[|runs| - 1]];
      Matching(runs[..|runs| - 1], q) + if Matches(runs[|runs| - 1], q) then [runs[|runs| - 1]] else []
  }

  predicate AllDated(runs: seq<Run>, q: Query) {
    forall r :: r in runs ==> ChronologyKey(r, q).Some?
  }

  /** No run of the list is later than `r`. */
  ghost predicate Newest(r: Run, runs: seq<Run>, q: Query)
    requires AllDated(runs, q)
  {
    r in runs && forall other :: other in runs ==> !Before(ChronologyKey(r, q).value, ChronologyKey(other, q).value)
  }

  /** Position `k` holds the first of the newest runs. */
  ghost predicate FirstNewest(runs: seq<Run>, k: int, q: Query)
    requires AllDated(runs, q)
  {
    && 0 <= k < |runs| && Newest(runs[k], runs, q)
    && forall j :: 0 <= j < k ==> Before(ChronologyKey(runs[j], q).value, ChronologyKey(runs[k], q).value)
  }

  /** The checks on the newest run. */
  function Verdict(r: Run, q: Query): Result<Run, GateError> {
    if r.status != "completed" then Failure(NotCompleted)
    else if r.conclusion != "success" then Failure(NotSuccessful)
    else if Completed(r, q).None? then Failure(InvalidRun)
    else
      var age := q.now - Completed(r, q).value;
      if age < -300 then Failure(FromFuture)
      else if age > q.maxAge then Failure(TooOld)
      else Success(r)
  }

  /** `r` is what the gate answers for these runs. */
  ghost predicate Answers(answer: Result<Run, GateError>, runs: seq<Run>, q: Query) {
    var m := Matching(runs, q);
    if q.maxAge <= 0 then answer == Failure(InvalidAge)
    else if m == [] then answer == Failure(NoRun)
    else if !AllDated(m, q) then answer == Failure(InvalidRun)
    else exists k :: FirstNewest(m, k, q) && answer == Verdict(m[k], q)
  }

  /** Python's `max(…, key=…)`: the first of the newest. */
  method LatestRun(runs: seq<Run>, q: Query) returns (latest: Option<nat>)
    requires runs != []
    ensures latest.Some? <==> AllDated(runs, q)
    ensures latest.Some? ==> FirstNewest(runs, latest.value, q)
  {
    hide ChronologyKey;
    BeforeIsStrictTotalOrder();
    var best := 0;
    if ChronologyKey(runs[0], q).None? {
      return None;
    }
    for i := 1 to |runs|
      invariant 0 <= best < i
      invariant forall j :: 0 <= j < i ==> ChronologyKey(runs[j], q).Some?
      invariant forall j :: 0 <= j < i ==> !Before(ChronologyKey(runs[best], q).value, ChronologyKey(runs[j], q).value)
      invariant forall j :: 0 <= j < best ==> Before(ChronologyKey(runs[j], q).value, ChronologyKey(runs[best], q).value)
    {
      assert runs[i] in runs;
      var key := ChronologyKey(runs[i], q);
      if key.None? {
        return None;
      }
      if Before(ChronologyKey(runs[best], q).value, key.value) {
        best := i;
      }
    }
    return Some(best);
  }

  /** `_workflow_runs`: the nested loops over the pages. */
  method WorkflowRuns(pages: seq<seq<Run>>) returns (runs: seq<Run>)
    ensures runs == Flatten(pages)
  {
    runs := [];
    for i := 0 to |pages|
      invariant runs == Flatten(pages[..i])
    {
      assert pages[..i + 1][..i] == pages[..i];
      ghost var before := runs;
      for j := 0 to |pages[i]|
        invariant runs == before + pages[i][..j]
      {
        runs := runs + [pages[i][j]];
      }
      assert pages[i][..|pages[i]|] == pages[i];
    }
    assert pages[..|pages|] == pages;
  }

  /** `select_latest_successful_run`. */
  method SelectLatestSuccessfulRun(pages: seq<seq<Run>>, q: Query) returns (answer: Result<Run, GateError>)
    ensures Answers(answer, Flatten(pages), q)
    ensures answer.Success? ==> answer.value in Flatten(pages) && Matches(answer.value, q)
  {
    hide Matches, ChronologyKey;
    if q.maxAge <= 0 {
      return Failure(InvalidAge);
    }
    var runs := WorkflowRuns(pages);
    var matching := Matching(runs, q);
    if matching == [] {
      return Failure(NoRun);
    }
    var latest := LatestRun(matching, q);
    if latest.None? {
      return Failure(InvalidRun);
    }
    return Verdict(matching[latest.value], q);
  }

  // ---- What the answer depends on ------------------------------------------------------------

  /** Exact-head runs are told apart by their ids. */
  ghost predicate DistinctIds(runs: seq<Run>, q: Query) {
    forall r, s :: r in runs && s in runs && Matches(r, q) && Matches(s, q) && r.id == s.id ==> r == s
  }

  lemma AnswerFromNewest(answer: Result<Run, GateError>, runs: seq<Run>, q: Query) returns (r: Run)
    requires Answers(answer, runs, q) && q.maxAge > 0 && Matching(runs, q) != [] && AllDated(Matching(runs, q), q)
    ensures Newest(r, Matching(runs, q), q) && answer == Verdict(r, q)
  {
    hide Matches, ChronologyKey, Verdict;
    var m := Matching(runs, q);
    var k :| FirstNewest(m, k, q) && answer == Verdict(m[k], q);
    r := m[k];
  }

  lemma NewestIsUnique(runs: seq<Run>, q: Query, r: Run, s: Run)
    requires AllDated(Matching(runs, q), q) && DistinctIds(runs, q)
    requires Newest(r, Matching(runs, q), q) && Newest(s, Matching(runs, q), q)
    ensures r == s
  {
    hide Matches;
    BeforeIsStrictTotalOrder();
    assert ChronologyKey(r, q) == ChronologyKey(s, q);
  }

  lemma SameMembers(runs: seq<Run>, others: seq<Run>, q: Query)
    requires multiset(runs) == multiset(others)
    ensures forall r :: r in runs <==> r in others
    ensures forall r :: r in Matching(runs, q) <==> r in Matching(others, q)
    ensures Matching(runs, q) == [] <==> Matching(others, q) == []
  {
    hide Matches;
    forall r ensures r in runs <==> r in others {
      assert r in runs <==> r in multiset(runs);
      assert r in others <==> r in multiset(others);
    }
    var m, n := Matching(runs, q), Matching(others, q);
    assert m != [] ==> m[0] in m;
    assert n != [] ==> n[0] in n;
  }

  /** All newest exact-head runs get the same verdict. */
  ghost predicate NewestAgree(runs: seq<Run>, q: Query) {
    AllDated(Matching(runs, q), q) ==>
      forall r, s :: Newest(r, Matching(runs, q), q) && Newest(s, Matching(runs, q), q) ==> Verdict(r, q) == Verdict(s, q)
  }

  lemma DistinctIdsAgree(runs: seq<Run>, q: Query)
    requires DistinctIds(runs, q)
    ensures NewestAgree(runs, q)
  {
    hide Matches, ChronologyKey, Verdict, Before;
    if AllDated(Matching(runs, q), q) {
      forall r, s | Newest(r, Matching(runs, q), q) && Newest(s, Matching(runs, q), q) ensures Verdict(r, q) == Verdict(s, q) {
        NewestIsUnique(runs, q, r, s);
      }
    }
  }

  /** Where the newest runs agree, in particular with distinct ids, the answer does not depend on
      the order of the runs or on paging. */
  lemma OrderIrrelevant(runs: seq<Run>, others: seq<Run>, q: Query, a: Result<Run, GateError>, b: Result<Run, GateError>)
    requires multiset(runs) == multiset(others) && NewestAgree(runs, q)
    requires Answers(a, runs, q) && Answers(b, others, q)
    ensures a == b
  {
    hide Matches, ChronologyKey, Verdict, Before, FirstNewest;
    SameMembers(runs, others, q);
    var m, n := Matching(runs, q), Matching(others, q);
    if q.maxAge > 0 && m != [] && AllDated(m, q) {
      var r := AnswerFromNewest(a, runs, q);
      var s := AnswerFromNewest(b, others, q);
      assert Newest(s, m, q);
    }
  }

  lemma MatchingSnoc(runs: seq<Run>, r: Run, q: Query)
    ensures Matching(runs + [r], q) == Matching(runs, q) + if Matches(r, q) then [r] else []
  {
    hide Matches;
    assert (runs + [r])[..|runs|] == runs;
  }

  lemma {:induction false} MatchingHead(first: Run, rest: seq<Run>, q: Query)
    requires Matches(first, q)
    ensures Matching([first] + rest, q) == [first] + Matching(rest, q)
  {
    hide Matches, Matching;
    if rest == [] {
      MatchingSnoc([], first, q);
      MatchingNone(q);
      assert [] + [first] == [first] == [first] + rest;
    } else {
      var front, last := rest[..|rest| - 1], rest[|rest| - 1];
      assert rest == front + [last] && [first] + rest == ([first] + front) + [last];
      MatchingHead(first, front, q);
      MatchingSnoc(front, last, q);
      MatchingSnoc([first] + front, last, q);
    }
  }

  lemma MatchingNone(q: Query)
    ensures Matching([], q) == []
  {
  }

  /** Some order of the runs makes a given newest run decide. */
  lemma NewestFirst(runs: seq<Run>, q: Query, r: Run) returns (others: seq<Run>)
    requires q.maxAge > 0 && AllDated(Matching(runs, q), q) && Newest(r, Matching(runs, q), q)
    ensures multiset(others) == multiset(runs) && Answers(Verdict(r, q), others, q)
  {
    hide Matches, ChronologyKey, Verdict, Before;
    var k :| 0 <= k < |runs| && runs[k] == r;
    var rest := runs[..k] + runs[k + 1..];
    assert runs == runs[..k] + [r] + runs[k + 1..];
    others := [r] + rest;
    MatchingHead(r, rest, q);
    SameMembers(runs, others, q);
    assert FirstNewest(Matching(others, q), 0, q);
  }

  /** The condition is exact: if two newest runs get different verdicts, the order decides. */
  lemma DisagreementDependsOnOrder(runs: seq<Run>, q: Query)
    returns (x: seq<Run>, y: seq<Run>, a: Result<Run, GateError>, b: Result<Run, GateError>)
    requires q.maxAge > 0 && !NewestAgree(runs, q)
    ensures multiset(x) == multiset(runs) && multiset(y) == multiset(runs)
    ensures Answers(a, x, q) && Answers(b, y, q) && a != b
  {
    hide Matches, ChronologyKey, Verdict, Before;
    var m := Matching(runs, q);
    var r, s :| Newest(r, m, q) && Newest(s, m, q) && Verdict(r, q) != Verdict(s, q);
    x := NewestFirst(runs, q, r);
    y := NewestFirst(runs, q, s);
    a, b := Verdict(r, q), Verdict(s, q);
  }

  /** Such runs exist: two records of one run, one of them stale. */
  lemma StaleRecordDisagrees(q: Query, green: Run)
    requires ChronologyKey(green, q).Some? && Verdict(green, q).Success? && Matches(green, q)
    ensures !NewestAgree([green, green.(status := "queued")], q)
  {
    var stale := green.(status := "queued");
    var runs := [green, stale];
    assert ChronologyKey(stale, q) == ChronologyKey(green, q) && Matches(stale, q);
    assert green in runs && stale in runs;
    var m := Matching(runs, q);
    assert Newest(green, m, q) && Newest(stale, m, q);
  }

  lemma MatchingPlus(runs: seq<Run>, extra: Run, q: Query)
    ensures forall r :: r in Matching(runs + [extra], q) <==> r in Matching(runs, q) || (r == extra && Matches(extra, q))
  {
    hide Matches;
    assert forall r :: r in runs + [extra] <==> r in runs || r == extra;
  }

  /** An older dated run never changes the answer. */
  lemma OlderRunIrrelevant(runs: seq<Run>, older: Run, q: Query, r: Run, a: Result<Run, GateError>, b: Result<Run, GateError>)
    requires q.maxAge > 0 && AllDated(Matching(runs, q), q) && Newest(r, Matching(runs, q), q) && ChronologyKey(older, q).Some?
    requires Before(ChronologyKey(older, q).value, ChronologyKey(r, q).value) && NewestAgree(runs, q)
    requires Answers(a, runs, q) && Answers(b, runs + [older], q)
    ensures a == b == Verdict(r, q)
  {
    hide Matches, ChronologyKey, Verdict, FirstNewest;
    BeforeIsStrictTotalOrder();
    var longer := runs + [older];
    MatchingPlus(runs, older, q);
    var m := Matching(longer, q);
    assert r in m;
    var s := AnswerFromNewest(a, runs, q);
    var t := AnswerFromNewest(b, longer, q);
    assert !Before(ChronologyKey(t, q).value, ChronologyKey(r, q).value);
    assert t in Matching(runs, q);
    assert Newest(t, Matching(runs, q), q);
  }

  /** A newer exact-head run that is not completed or not successful always causes rejection. */
  lemma NewerRunDecides(runs: seq<Run>, newer: Run, q: Query, answer: Result<Run, GateError>)
    requires Matches(newer, q) && (newer.status != "completed" || newer.conclusion != "success")
    requires ChronologyKey(newer, q).Some? ==>
             forall r :: r in Matching(runs, q) && ChronologyKey(r, q).Some? ==>
               Before(ChronologyKey(r, q).value, ChronologyKey(newer, q).value)
    requires Answers(answer, runs + [newer], q)
    ensures answer.Failure?
  {
    hide Matches, ChronologyKey, FirstNewest;
    MatchingPlus(runs, newer, q);
    var m := Matching(runs + [newer], q);
    assert newer in m;
    if q.maxAge > 0 && AllDated(m, q) {
      var r := AnswerFromNewest(answer, runs + [newer], q);
      assert !Before(ChronologyKey(r, q).value, ChronologyKey(newer, q).value);
      assert r == newer;
    }
  }

  // ---- What the answer means -------------------------------------------------------------------

  ghost predicate Given(value: Option<string>) {
    value.Some? && value.value != ""
  }

  /** The run starts at `t`: its start time, or if that is not given its creation time. */
  ghost predicate StartsAt(r: Run, q: Query, t: int) {
    if Given(r.startedAt) then q.parse(r.startedAt.value) == Some(t)
    else Given(r.createdAt) && q.parse(r.createdAt.value) == Some(t)
  }

  /** The run completes at `t`: its last update, or if that is not given its start. */
  ghost predicate CompletesAt(r: Run, q: Query, t: int) {
    if Given(r.updatedAt) then q.parse(r.updatedAt.value) == Some(t) else StartsAt(r, q, t)
  }

  lemma TimesMean(r: Run, q: Query)
    ensures forall t :: StartsAt(r, q, t) <==> ParseTime(Or(r.startedAt, r.createdAt), q) == Some(t)
    ensures forall t :: CompletesAt(r, q, t) <==> Completed(r, q) == Some(t)
  {
  }

  /** A run can be dated exactly if it has a start, a completion, an attempt number and an id. */
  lemma DatedMeans(r: Run, q: Query)
    ensures ChronologyKey(r, q).Some? <==>
            (exists t :: StartsAt(r, q, t)) && (exists t :: CompletesAt(r, q, t)) && r.attempt >= 0 && r.id > 0
  {
    TimesMean(r, q);
    var started, updated := ParseTime(Or(r.startedAt, r.createdAt), q), Completed(r, q);
    hide StartsAt, CompletesAt, ParseTime, Completed, Or;
    if started.Some? {
      assert StartsAt(r, q, started.value);
    }
    if updated.Some? {
      assert CompletesAt(r, q, updated.value);
    }
  }

  /** One run is later than another by start, then completion, then attempt, then id. */
  lemma LaterMeans(r: Run, s: Run, q: Query, start: int, end: int, start': int, end': int)
    requires ChronologyKey(r, q).Some? && ChronologyKey(s, q).Some?
    requires StartsAt(r, q, start) && CompletesAt(r, q, end) && StartsAt(s, q, start') && CompletesAt(s, q, end')
    ensures Before(ChronologyKey(s, q).value, ChronologyKey(r, q).value) <==>
            || start' < start
            || (start' == start && end' < end)
            || (start' == start && end' == end && s.attempt < r.attempt)
            || (start' == start && end' == end && s.attempt == r.attempt && s.id < r.id)
  {
    TimesMean(r, q);
    TimesMean(s, q);
    hide StartsAt, CompletesAt, ParseTime, Completed, Or;
  }

  /** The checks pass exactly on a completed, successful run that completed at most `maxAge` ago and
      at most five minutes ahead. */
  lemma VerdictMeans(r: Run, q: Query)
    ensures Verdict(r, q) == Success(r) <==>
            && r.status == "completed" && r.conclusion == "success"
            && exists t :: CompletesAt(r, q, t) && q.now - q.maxAge <= t <= q.now + 300
    ensures Verdict(r, q).Success? ==> Verdict(r, q) == Success(r)
  {
    TimesMean(r, q);
    var updated := Completed(r, q);
    hide CompletesAt, Completed;
    if updated.Some? {
      assert CompletesAt(r, q, updated.value);
    }
  }

  /** The run's head is the asked one, whatever the case of its letters. */
  ghost predicate ForHead(r: Run, q: Query) {
    r.headSha.Some? && q.lower(r.headSha.value) == q.lower(q.head)
  }

  /** A run for the exact head that starts later than every other one decides alone. */
  lemma LatestStartDecides(runs: seq<Run>, q: Query, r: Run, start: int, answer: Result<Run, GateError>)
    requires q.maxAge > 0 && r in runs && ForHead(r, q) && AllDated(Matching(runs, q), q) && StartsAt(r, q, start)
    requires forall s :: s in runs && ForHead(s, q) && s != r ==> exists t :: StartsAt(s, q, t) && t < start
    requires Answers(answer, runs, q)
    ensures answer == Verdict(r, q)
  {
    var m := Matching(runs, q);
    forall s | s in m && s != r ensures Before(ChronologyKey(s, q).value, ChronologyKey(r, q).value) {
      var t :| StartsAt(s, q, t) && t < start;
      DatedMeans(r, q);
      DatedMeans(s, q);
      var e :| CompletesAt(r, q, e);
      var e' :| CompletesAt(s, q, e');
      LaterMeans(r, s, q, start, e, t, e');
    }
    hide StartsAt, Matches, ChronologyKey, Verdict;
    var newest := AnswerFromNewest(answer, runs, q);
    BeforeIsStrictTotalOrder();
  }

  /** What an accepted answer is. */
  lemma AcceptedRunMeans(runs: seq<Run>, q: Query, r: Run)
    requires Answers(Success(r), runs, q)
    ensures r in runs && r.headSha.Some? && q.lower(r.headSha.value) == q.lower(q.head)
    ensures r.status == "completed" && r.conclusion == "success"
    ensures exists t :: CompletesAt(r, q, t) && q.now - q.maxAge <= t <= q.now + 300
    ensures forall s :: s in runs && Matches(s, q) ==>
              ChronologyKey(s, q).Some? && !Before(ChronologyKey(r, q).value, ChronologyKey(s, q).value)
  {
    hide ChronologyKey, Before, CompletesAt, Verdict;
    var newest := AnswerFromNewest(Success(r), runs, q);
    VerdictMeans(newest, q);
  }
}
