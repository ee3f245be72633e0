/** Whole runs of the migration canary (packaging/n8n_update_migration_canary.py:466-555): any
    sequence of custody steps, cut short at the first failure, followed by `cleanup`. */
module CustodyRun {
  import opened Outcomes
  import opened Engine
  import opened Custody

  /** A step of a run. `made` and `handle` index the volumes and candidates obtained so far; volumes
      made before the last cleanup are no longer used. */
  datatype Step =
    | MakeVolume(token: string)
    | MakeCandidate(token: string, image: string, made: nat, phase: Phase)
    | StartCandidate(handle: nat)
    | RemoveCandidate(handle: nat)
    | CleanUp

  /** No name was recorded for two different intents. */
  ghost predicate OneIntentPerName(pending: seq<Intent>) {
    forall p, q :: p in pending && q in pending && p.name == q.name ==> p == q
  }

  /** No container that predates the run is named like one of its volumes. */
  ghost predicate UnnamedVolumes(base: Containers, names: seq<string>) {
    forall v :: v in names ==> !LiveContainer(base, v)
  }

  /** What a cleanup by an exactly reporting engine needs: each holder of a pending name realises that
      very intent, and no container of the old world is named like a live recorded volume. */
  ghost predicate Releasable(base: Containers, live: Containers, volumes: Volumes, pending: seq<Intent>,
                             names: seq<string>, defaults: Defaults, owner: Labels) {
    && (forall p :: p in pending ==> Identifiable(live, p, defaults, owner))
    && (forall v :: v in names && v in volumes ==> !LiveContainer(base, v))
  }

  /** A container beyond the old world carries the name of an intent it realises. */
  lemma CoveredIntent(base: Containers, live: Containers, pending: seq<Intent>, defaults: Defaults, owner: Labels, id: string)
    returns (p: Intent)
    requires WellFormedContainers(live) && Secured(base, live, pending, defaults, owner) && id in live && id !in base
    ensures p in pending && Named(live[id], p.name) && Identity(live[id], Record(id, p), defaults, owner)
  {
    hide Isolated, MountedAsRecorded, CommandAsRecorded;
    assert CoveredBy(live[id], pending, defaults, owner);
    p :| p in pending && Identity(live[id], Record(live[id].id, p), defaults, owner);
  }

  /** With everything on record gone, exactly the old world is left. */
  lemma RestoredExactly(base: Containers, live: Containers, baseVolumes: Volumes, volumes: Volumes,
                        pending: seq<Intent>, records: seq<Record>, names: seq<string>, defaults: Defaults, owner: Labels)
    requires WellFormedContainers(live)
    requires Secured(base, live, pending, defaults, owner) && SecuredVolumes(baseVolumes, volumes, names)
    requires AllGone(live, volumes, pending, records, names)
    ensures live == base && volumes == baseVolumes
  {
    hide Identity;
    forall id | id in live ensures id in base {
      if id !in base {
        var p := CoveredIntent(base, live, pending, defaults, owner, id);
        assert false;
      }
    }
    assert live == base && volumes == baseVolumes;
  }

  lemma SameName(row: ContainerRow, a: string, b: string)
    requires Named(row, a) && Named(row, b)
    ensures a == b
  {
    assert ("/" + a)[1..] == a && ("/" + b)[1..] == b;
  }

  lemma PhasesDiffer(owner: Labels)
    ensures PhaseLabels(owner, Seed)["io.neoth.w1601.phase"] != PhaseLabels(owner, Target)["io.neoth.w1601.phase"]
  {
    assert "seed"[0] != "target"[0];
  }

  /** A container realises at most one intent. */
  lemma IdentityDetermines(row: ContainerRow, id: string, p: Intent, q: Intent, defaults: Defaults, owner: Labels)
    requires Identity(row, Record(id, p), defaults, owner) && Identity(row, Record(id, q), defaults, owner)
    ensures p == q
  {
    PhasesDiffer(owner);
    SameName(row, p.name, q.name);
    hide CommandAsRecorded, PhaseLabels;
    assert "io.neoth.w1601.phase" in PhaseLabels(owner, p.phase) && "io.neoth.w1601.phase" in PhaseLabels(owner, q.phase) by {
      PhaseLabelled(owner, p.phase);
      PhaseLabelled(owner, q.phase);
    }
  }

  lemma PhaseLabelled(owner: Labels, phase: Phase)
    ensures "io.neoth.w1601.phase" in PhaseLabels(owner, phase)
  {
  }

  /** A name recorded again for another intent stalls the cleanup while a holder of the first is live. */
  lemma ReusedNameStalls(live: Containers, id: string, p: Intent, q: Intent, defaults: Defaults, owner: Labels)
    requires id in live && Identity(live[id], Record(id, q), defaults, owner) && p.name == q.name && p != q
    ensures !Identifiable(live, p, defaults, owner)
  {
    hide Isolated, MountedAsRecorded, CommandAsRecorded;
    assert AnswersTo(live[id], p.name);
    if Identifiable(live, p, defaults, owner) {
      IdentityDetermines(live[id], id, p, q, defaults, owner);
    }
  }

  /** A run can get there: a target candidate is created and removed, then another one is requested
      with a different image, under the name that run, attempt and phase determine. Everything is
      covered and truly recorded, and still the cleanup cannot succeed. */
  lemma TargetNameReusedFails(id: string, token: string, image: string, config: ImageConfig, other: string, config': ImageConfig,
                              volume: string, volumes: Volumes, owner: Labels)
    requires IsId(id) && image != other
    ensures var p := Intent(CANDIDATE_PREFIX + token, other, volume, Target);
            var q := Intent(CANDIDATE_PREFIX + token, image, volume, Target);
            var live := map[id := RequestedRow(q, config, owner).(id := id)];
            var defaults := map[other := config', image := config];
            && WellFormedContainers(live) && Secured(map[], live, [p, q], defaults, owner)
            && TrueRecords(live, {id}, [Record(id, q)], defaults, owner)
            && !Releasable(map[], live, volumes, [p, q], [volume], defaults, owner)
  {
    var p := Intent(CANDIDATE_PREFIX + token, other, volume, Target);
    var q := Intent(CANDIDATE_PREFIX + token, image, volume, Target);
    var live := map[id := RequestedRow(q, config, owner).(id := id)];
    var defaults: Defaults := map[other := config', image := config];
    RequestedIdentity(q, config, owner, defaults, id);
    CandidateNamesAreNotIds(token);
    RequestedName(q, config, owner);
    hide Identity, RequestedRow, IsId;
    assert p in [p, q] && q in [p, q];
    assert CoveredBy(live[id], [p, q], defaults, owner);
    assert Covered(map[], live, [p, q], defaults, owner);
    ReusedNameStalls(live, id, p, q, defaults, owner);
  }

  /** No live container realises an intent whose name is also recorded for another. */
  ghost predicate NoNameReused(live: Containers, pending: seq<Intent>, defaults: Defaults, owner: Labels) {
    forall p, q, id :: p in pending && q in pending && id in live && Identity(live[id], Record(id, q), defaults, owner) ==>
      (p.name == q.name ==> p == q)
  }

  /** All pending names can be reconciled exactly when no live one is reused. */
  lemma IdentifiableExactly(base: Containers, live: Containers, pending: seq<Intent>, defaults: Defaults, owner: Labels)
    requires WellFormedContainers(live) && Secured(base, live, pending, defaults, owner)
    ensures (forall p :: p in pending ==> Identifiable(live, p, defaults, owner)) <==> NoNameReused(live, pending, defaults, owner)
  {
    hide Identity, WellFormedContainers;
    if NoNameReused(live, pending, defaults, owner) {
      forall p, id | p in pending && id in live && AnswersTo(live[id], p.name)
        ensures Identity(live[id], Record(id, p), defaults, owner)
      {
        HolderRealises(base, live, pending, defaults, owner, p, id);
      }
    } else {
      var p, q, id :| p in pending && q in pending && id in live && Identity(live[id], Record(id, q), defaults, owner)
        && p.name == q.name && p != q;
      ReusedNameStalls(live, id, p, q, defaults, owner);
    }
  }

  lemma HolderRealises(base: Containers, live: Containers, pending: seq<Intent>, defaults: Defaults, owner: Labels,
                       p: Intent, id: string)
    requires WellFormedContainers(live) && Secured(base, live, pending, defaults, owner) && p in pending
    requires id in live && AnswersTo(live[id], p.name)
    ensures exists q :: q in pending && q.name == p.name && Identity(live[id], Record(id, q), defaults, owner)
  {
    hide Identity;
    assert FreshName(base, p.name);
    assert id !in base;
    var q := CoveredIntent(base, live, pending, defaults, owner, id);
    SameName(live[id], p.name, q.name);
  }

  /** After any steps, what is left over can be cleaned up if it is releasable. */
  lemma HeldIsCleanable(base: Containers, live: Containers, baseVolumes: Volumes, volumes: Volumes, issued: set<string>,
                        pending: seq<Intent>, records: seq<Record>, names: seq<string>, defaults: Defaults, owner: Labels)
    requires WellFormedContainers(live) && forall id :: id in issued ==> IsId(id)
    requires Secured(base, live, pending, defaults, owner) && SecuredVolumes(baseVolumes, volumes, names)
    requires TrueRecords(live, issued, records, defaults, owner) && TrueVolumes(volumes, names, owner)
    requires MountsLive(base, baseVolumes) && Releasable(base, live, volumes, pending, names, defaults, owner)
    ensures Cleanable(live, volumes, pending, records, names, defaults, owner)
  {
    hide Identity, Mounts;
    forall r | r in records ensures Removable(live, r, defaults, owner) {
      LiveById(live, r.id);
    }
    forall v | v in names ensures OwnedVolume(live, volumes, v, pending, owner) {
      forall id | id in live && v in volumes && (Mounts(live[id], v) || AnswersTo(live[id], v))
        ensures exists p :: p in pending && Named(live[id], p.name)
      {
        assert !LiveContainer(base, v) && v !in baseVolumes;
        var p := CoveredIntent(base, live, pending, defaults, owner, id);
      }
    }
  }

  /** Names used consistently make everything releasable. */
  lemma ConsistentIsReleasable(base: Containers, live: Containers, volumes: Volumes, pending: seq<Intent>,
                               names: seq<string>, defaults: Defaults, owner: Labels)
    requires WellFormedContainers(live) && Secured(base, live, pending, defaults, owner)
    ensures OneIntentPerName(pending) && UnnamedVolumes(base, names) ==>
            Releasable(base, live, volumes, pending, names, defaults, owner)
  {
    hide Identity, WellFormedContainers, LiveContainer, Secured, Identifiable;
    IdentifiableExactly(base, live, pending, defaults, owner);
  }

  /** `cleanup` keeps the old world, whatever it manages to remove. */
  lemma CleanupKeepsOldWorld(base: Containers, live: Containers, after: Containers, pending: seq<Intent>,
                             records: seq<Record>, defaults: Defaults, owner: Labels)
    requires Secured(base, live, pending, defaults, owner) && forall r :: r in records ==> r.intent in pending
    requires RemovedOnlyIdentified(live, after, records, defaults, owner)
    ensures Secured(base, after, pending, defaults, owner)
  {
    hide Identity;
    forall id | id in base ensures id in after && after[id] == base[id] {
      if id !in after {
        var r :| r in records && r.id == id && Identity(live[id], r, defaults, owner);
        SecuredIsOurs(base, live, pending, r, defaults, owner);
        assert false;
      }
    }
  }

  /** `docker start` or `docker rm` of a candidate the run created. */
  lemma OwnStepSecured(base: Containers, live: Containers, after: Containers, issued: set<string>, pending: seq<Intent>,
                       records: seq<Record>, defaults: Defaults, owner: Labels, id: string)
    requires Secured(base, live, pending, defaults, owner) && id !in base
    requires after == live - {id} || (id in live && after == live[id := live[id].(running := true)])
    ensures Secured(base, after, pending, defaults, owner)
    ensures TrueRecords(live, issued, records, defaults, owner) ==> TrueRecords(after, issued, records, defaults, owner)
  {
    hide Identity;
    if after == live - {id} {
      OwnRemoved(base, live, pending, defaults, owner, id);
    } else {
      CoverStarted(base, live, pending, defaults, owner, id);
      hide Covered, Keeps;
      forall r | r in records && r.id == id && Identity(live[id], r, defaults, owner)
        ensures Identity(after[id], r, defaults, owner)
      {
        IdentityKept(live[id], r, defaults, defaults, owner, true);
      }
    }
  }

  lemma OwnRemoved(base: Containers, live: Containers, pending: seq<Intent>, defaults: Defaults, owner: Labels, id: string)
    requires Secured(base, live, pending, defaults, owner) && id !in base
    ensures Secured(base, live - {id}, pending, defaults, owner)
  {
    hide CoveredBy, PendingFresh;
  }

  /** The intent a step records, given the volumes made before it. */
  function IntentOf(step: Step, made: seq<string>): Intent
    requires step.MakeCandidate? && step.made < |made|
  {
    Intent(CANDIDATE_PREFIX + step.token, step.image, made[step.made], step.phase)
  }

  /** `docker container start` of an own candidate. */
  method StartOwn(ledger: Ledger, id: string, ghost base: Containers, ghost baseVolumes: Volumes) returns (ok: bool)
    requires ledger.Holds(base, baseVolumes) && ledger.Tracks() && id !in base
    modifies ledger.docker`containers
    ensures ledger.Holds(base, baseVolumes) && ledger.Tracks()
    ensures ledger.docker.accurate ==> (ok <==> id in ledger.docker.containers && ledger.docker.containers[id].running)
  {
    hide Secured, SecuredVolumes, KnownImages, TrueRecords, TrueVolumes;
    ghost var live := ledger.docker.containers;
    ok := ledger.docker.Start(id);
    if live != ledger.docker.containers {
      OwnStepSecured(base, live, ledger.docker.containers, ledger.docker.issued, ledger.pending,
                     ledger.containers, ledger.defaults, ledger.owner, id);
    }
  }

  /** `docker container rm` of an own candidate. */
  method RemoveOwn(ledger: Ledger, id: string, ghost base: Containers, ghost baseVolumes: Volumes) returns (ok: bool)
    requires ledger.Holds(base, baseVolumes) && ledger.Tracks() && id !in base
    modifies ledger.docker`containers
    ensures ledger.Holds(base, baseVolumes) && ledger.Tracks()
    ensures ledger.docker.accurate ==> ok && id !in ledger.docker.containers
  {
    hide Secured, SecuredVolumes, KnownImages, TrueRecords, TrueVolumes;
    ghost var live := ledger.docker.containers;
    ok := ledger.docker.RemoveContainer(id);
    if live != ledger.docker.containers {
      OwnStepSecured(base, live, ledger.docker.containers, ledger.docker.issued, ledger.pending,
                     ledger.containers, ledger.defaults, ledger.owner, id);
    }
  }

  /** A successful step has left its name on record. */
  ghost predicate StepRecorded(step: Step, volumes: seq<string>, pending: seq<Intent>) {
    && (step.MakeVolume? ==> CANDIDATE_PREFIX + step.token in volumes)
    && (step.MakeCandidate? ==>
          exists p :: p in pending && p.name == CANDIDATE_PREFIX + step.token && p.image == step.image && p.phase == step.phase)
  }

  lemma RecordedGrows(step: Step, volumes: seq<string>, pending: seq<Intent>, volumes': seq<string>, pending': seq<Intent>)
    requires StepRecorded(step, volumes, pending) && volumes <= volumes' && pending <= pending'
    ensures StepRecorded(step, volumes', pending')
  {
  }

  /** The volumes made since the last cleanup are recorded and live. */
  ghost predicate VolumesUsable(ledger: Ledger, made: seq<string>, from: nat)
    reads ledger, ledger.docker
  {
    from <= |made| && forall k :: from <= k < |made| ==> made[k] in ledger.volumes && made[k] in ledger.docker.volumes
  }

  /** One step; `false` is the exception that ends the run. */
  method Perform(step: Step, ledger: Ledger, made: seq<string>, from: nat, handles: seq<string>,
                 ghost base: Containers, ghost baseVolumes: Volumes)
    returns (ok: bool, made': seq<string>, from': nat, handles': seq<string>)
    requires ledger.Holds(base, baseVolumes) && ledger.Tracks() && MountsLive(base, baseVolumes)
    requires VolumesUsable(ledger, made, from)
    requires forall h :: h in handles ==> h !in base
    modifies ledger, ledger.docker
    ensures ledger.Holds(base, baseVolumes) && ledger.Tracks()
    ensures VolumesUsable(ledger, made', from')
    ensures forall h :: h in handles' ==> h !in base
    ensures ok && step.CleanUp? ==> ledger.docker.containers == base && ledger.docker.volumes == baseVolumes
    ensures from' == if step.CleanUp? then |made| else from
    ensures made' == if ok && step.MakeVolume? then made + [CANDIDATE_PREFIX + step.token] else made
    ensures !(ok && step.MakeCandidate?) ==> handles' == handles
    ensures ledger.volumes == old(ledger.volumes) ||
            (step.MakeVolume? && ledger.volumes == old(ledger.volumes) + [CANDIDATE_PREFIX + step.token])
    ensures ledger.pending == old(ledger.pending) ||
            (step.MakeCandidate? && step.made < |made| && ledger.pending == old(ledger.pending) + [IntentOf(step, made)])
    ensures ok && step.MakeCandidate? ==> step.made < |made| && |handles'| == |handles| + 1 && handles <= handles'
    ensures ok && step.MakeCandidate? ==>
            ledger.PassesCheck(Record(handles'[|handles|], IntentOf(step, made)))
    ensures ok ==> StepRecorded(step, ledger.volumes, ledger.pending)
    // an exactly reporting engine: a possible step is tried, and succeeds exactly if it had its effect
    ensures ledger.docker.accurate && step.MakeVolume? ==>
            (ledger.volumes != old(ledger.volumes) <==>
             IsToken(step.token) && CANDIDATE_PREFIX + step.token !in old(ledger.docker.volumes))
    ensures ledger.docker.accurate && step.MakeCandidate? ==>
            (ledger.pending != old(ledger.pending) <==>
             from <= step.made < |made| && !LiveContainer(old(ledger.docker.containers), CANDIDATE_PREFIX + step.token) &&
             step.image in ledger.docker.images && ledger.docker.images[step.image].entrypoint.Some?)
    ensures ledger.docker.accurate && step.MakeVolume? ==>
            (ok <==> ledger.docker.volumes != old(ledger.docker.volumes) &&
                     !LiveContainer(ledger.docker.containers, CANDIDATE_PREFIX + step.token))
    ensures ledger.docker.accurate && step.MakeCandidate? ==>
            (ok <==> ledger.docker.containers != old(ledger.docker.containers))
    ensures ledger.docker.accurate && step.StartCandidate? ==>
            (ok <==> step.handle < |handles| && handles[step.handle] in ledger.docker.containers &&
                     ledger.docker.containers[handles[step.handle]].running)
    ensures ledger.docker.accurate && step.RemoveCandidate? ==>
            (ok <==> step.handle < |handles|) && (ok ==> handles[step.handle] !in ledger.docker.containers)
  {
    hide Secured, SecuredVolumes, KnownImages, TrueRecords, TrueVolumes, LiveContainer, IsToken, IsId, MountsLive,
         WellFormedContainers, WellFormedVolumes, Identity, Releasable;
    ok, made', from', handles' := false, made, from, handles;
    match step {
      case MakeVolume(token) =>
        var r := ledger.MakeVolume(token, base, baseVolumes);
        if r.Some? {
          ok, made' := true, made + [r.value];
        }
      case MakeCandidate(token, image, k, phase) =>
        if from <= k < |made| {
          var r := ledger.CreateCandidate(token, image, made[k], phase, base, baseVolumes);
          if r.Some? {
            ok, handles' := true, handles + [r.value];
          }
        }
      case StartCandidate(k) =>
        if k < |handles| {
          ok := StartOwn(ledger, handles[k], base, baseVolumes);
        }
      case RemoveCandidate(k) =>
        if k < |handles| {
          ok := RemoveOwn(ledger, handles[k], base, baseVolumes);
        }
      case CleanUp =>
        ok := Finish(ledger, base, baseVolumes);
        from' := |made|;
    }
  }

  /** No two candidates of a run share a name unless they are requested alike. */
  predicate ConsistentSteps(steps: seq<Step>) {
    forall s, t :: s in steps && t in steps && s.MakeCandidate? && t.MakeCandidate? && s.token == t.token ==> s == t
  }

  /** No container that predates the run is named like a volume it will make. */
  ghost predicate UnnamedSteps(steps: seq<Step>, base: Containers) {
    forall s :: s in steps && s.MakeVolume? ==> !LiveContainer(base, CANDIDATE_PREFIX + s.token)
  }

  ghost predicate IntentFrom(p: Intent, steps: seq<Step>, made: seq<string>) {
    exists s :: s in steps && s.MakeCandidate? && s.made < |made| && p == IntentOf(s, made)
  }

  ghost predicate VolumeFrom(v: string, steps: seq<Step>) {
    exists s :: s in steps && s.MakeVolume? && v == CANDIDATE_PREFIX + s.token
  }

  /** Everything on record was asked for by a step. */
  ghost predicate RecordsFrom(pending: seq<Intent>, volumes: seq<string>, steps: seq<Step>, made: seq<string>) {
    (forall p :: p in pending ==> IntentFrom(p, steps, made)) && (forall v :: v in volumes ==> VolumeFrom(v, steps))
  }

  lemma OneMoreStep(pending: seq<Intent>, volumes: seq<string>, steps: seq<Step>, made: seq<string>, step: Step,
                    pending': seq<Intent>, volumes': seq<string>, made': seq<string>)
    requires RecordsFrom(pending, volumes, steps, made) && step in steps && made <= made'
    requires pending' == pending ||
             (step.MakeCandidate? && step.made < |made| && pending' == pending + [IntentOf(step, made)])
    requires volumes' == volumes || (step.MakeVolume? && volumes' == volumes + [CANDIDATE_PREFIX + step.token])
    ensures RecordsFrom(pending', volumes', steps, made')
  {
    forall p | p in pending' ensures IntentFrom(p, steps, made') {
      if p in pending {
        assert IntentFrom(p, steps, made);
        var s :| s in steps && s.MakeCandidate? && s.made < |made| && p == IntentOf(s, made);
        assert p == IntentOf(s, made');
      } else {
        assert p == IntentOf(step, made');
      }
    }
    forall v | v in volumes' ensures VolumeFrom(v, steps) {
      if v in volumes {
        assert VolumeFrom(v, steps);
      }
    }
  }

  lemma SameToken(a: string, b: string)
    requires CANDIDATE_PREFIX + a == CANDIDATE_PREFIX + b
    ensures a == b
  {
    assert (CANDIDATE_PREFIX + a)[|CANDIDATE_PREFIX|..] == a && (CANDIDATE_PREFIX + b)[|CANDIDATE_PREFIX|..] == b;
  }

  /** Consistent steps leave consistent records. */
  lemma StepsDecide(pending: seq<Intent>, volumes: seq<string>, steps: seq<Step>, made: seq<string>, base: Containers)
    requires RecordsFrom(pending, volumes, steps, made)
    ensures ConsistentSteps(steps) ==> OneIntentPerName(pending)
    ensures UnnamedSteps(steps, base) ==> UnnamedVolumes(base, volumes)
  {
    hide LiveContainer;
    if ConsistentSteps(steps) {
      forall p, q | p in pending && q in pending && p.name == q.name ensures p == q {
        assert IntentFrom(p, steps, made) && IntentFrom(q, steps, made);
        var s :| s in steps && s.MakeCandidate? && s.made < |made| && p == IntentOf(s, made);
        var t :| t in steps && t.MakeCandidate? && t.made < |made| && q == IntentOf(t, made);
        SameToken(s.token, t.token);
      }
    }
    if UnnamedSteps(steps, base) {
      forall v | v in volumes ensures !LiveContainer(base, v) {
        assert VolumeFrom(v, steps);
      }
    }
  }

  /** Nothing is on record that no step asked for. */
  ghost predicate RecordedByStep(pending: seq<Intent>, volumes: seq<string>, steps: seq<Step>) {
    && (forall p :: p in pending ==> exists s :: s in steps && s.MakeCandidate? && p.name == CANDIDATE_PREFIX + s.token &&
                                                 p.image == s.image && p.phase == s.phase)
    && (forall v :: v in volumes ==> exists s :: s in steps && s.MakeVolume? && v == CANDIDATE_PREFIX + s.token)
  }

  lemma RecordsByStep(pending: seq<Intent>, volumes: seq<string>, steps: seq<Step>, made: seq<string>)
    requires RecordsFrom(pending, volumes, steps, made)
    ensures RecordedByStep(pending, volumes, steps)
  {
    forall p | p in pending ensures exists s :: s in steps && s.MakeCandidate? && p.name == CANDIDATE_PREFIX + s.token &&
                                                p.image == s.image && p.phase == s.phase {
      assert IntentFrom(p, steps, made);
    }
    forall v | v in volumes ensures exists s :: s in steps && s.MakeVolume? && v == CANDIDATE_PREFIX + s.token {
      assert VolumeFrom(v, steps);
    }
  }

  /** Every run: steps, cleanups among them, until the first failure, then cleanup. Whatever the engine does, nothing
      that predates the run is changed and everything left over is on record; a cleanup that
      reports success has restored exactly the world the run started in. With an exactly reporting
      engine, success is certain for steps that use each name for one purpose. */
  method Run(steps: seq<Step>, ledger: Ledger) returns (ok: bool, done: nat)
    requires ledger.docker.Valid()
    requires ledger.containers == [] && ledger.volumes == [] && ledger.pending == [] && ledger.defaults == map[]
    modifies ledger, ledger.docker
    ensures ledger.Holds(old(ledger.docker.containers), old(ledger.docker.volumes))
    ensures ok ==> ledger.docker.containers == old(ledger.docker.containers)
    ensures ok ==> ledger.docker.volumes == old(ledger.docker.volumes)
    ensures done <= |steps| && forall j :: 0 <= j < done ==> StepRecorded(steps[j], ledger.volumes, ledger.pending)
    ensures RecordedByStep(ledger.pending, ledger.volumes, steps)
    ensures ledger.docker.accurate && ConsistentSteps(steps) ==>
            (UnnamedSteps(steps, old(ledger.docker.containers)) ==> ok)
    ensures ledger.docker.accurate && OneIntentPerName(ledger.pending) ==>
            (UnnamedVolumes(old(ledger.docker.containers), ledger.volumes) ==> ok)
  {
    ghost var base, baseVolumes := ledger.docker.containers, ledger.docker.volumes;
    assert ledger.Holds(base, baseVolumes) && ledger.Tracks();
    hide Secured, SecuredVolumes, KnownImages, TrueRecords, TrueVolumes, AllGone, Cleanable, Releasable,
         OneIntentPerName, UnnamedVolumes, ConsistentSteps, UnnamedSteps, StepRecorded, RecordedByStep;
    var made: seq<string>, handles: seq<string> := [], [];
    var from, running := 0, true;
    done := 0;
    assert RecordsFrom(ledger.pending, ledger.volumes, steps, made);
    hide RecordsFrom;
    while running && done < |steps|
      invariant done <= |steps|
      invariant forall j :: 0 <= j < done ==> StepRecorded(steps[j], ledger.volumes, ledger.pending)
      invariant ledger.Holds(base, baseVolumes) && ledger.Tracks()
      invariant VolumesUsable(ledger, made, from)
      invariant forall h :: h in handles ==> h !in base
      invariant RecordsFrom(ledger.pending, ledger.volumes, steps, made)
      decreases |steps| - done, running
    {
      ghost var pending, volumes, before := ledger.pending, ledger.volumes, made;
      running, made, from, handles := Perform(steps[done], ledger, made, from, handles, base, baseVolumes);
      OneMoreStep(pending, volumes, steps, before, steps[done], ledger.pending, ledger.volumes, made);
      forall j | 0 <= j < done ensures StepRecorded(steps[j], ledger.volumes, ledger.pending) {
        RecordedGrows(steps[j], volumes, pending, ledger.volumes, ledger.pending);
      }
      if running {
        done := done + 1;
      }
    }
    RecordsByStep(ledger.pending, ledger.volumes, steps, made);
    StepsDecide(ledger.pending, ledger.volumes, steps, made, base);
    ConsistentIsReleasable(base, ledger.docker.containers, ledger.docker.volumes, ledger.pending, ledger.volumes,
                           ledger.defaults, ledger.owner);
    ok := Finish(ledger, base, baseVolumes);
  }

  lemma VolumesKept(base: Volumes, live: Volumes, after: Volumes, names: seq<string>, owner: Labels)
    requires SecuredVolumes(base, live, names) && RemovedOnlyOwned(live, after, names, owner)
    ensures SecuredVolumes(base, after, names)
    ensures TrueVolumes(live, names, owner) ==> TrueVolumes(after, names, owner)
  {
  }

  /** What a cleanup records and leaves is still truly recorded. */
  lemma CleanupKeepsRecords(live: Containers, after: Containers, issued: set<string>, before: seq<Record>, records: seq<Record>,
                            defaults: Defaults, owner: Labels)
    requires TrueRecords(live, issued, before, defaults, owner) && live.Keys <= issued
    requires forall r :: r in records && r !in before ==> r.id in live && Identity(live[r.id], r, defaults, owner)
    requires RemovedOnlyIdentified(live, after, records, defaults, owner)
    ensures TrueRecords(after, issued, records, defaults, owner)
  {
    hide Identity;
  }

  lemma PendingAreNotIds(base: Containers, live: Containers, pending: seq<Intent>, defaults: Defaults, owner: Labels)
    requires Secured(base, live, pending, defaults, owner)
    ensures forall p :: p in pending ==> !IsId(p.name)
  {
    hide IsId;
    forall p | p in pending ensures !IsId(p.name) {
      assert FreshName(base, p.name);
    }
  }

  /** What the ledger holds is releasable. */
  ghost predicate HoldsReleasable(ledger: Ledger, base: Containers)
    reads ledger, ledger.docker
  {
    Releasable(base, ledger.docker.containers, ledger.docker.volumes, ledger.pending, ledger.volumes, ledger.defaults, ledger.owner)
  }

  /** The `finally` block: cleanup after any steps. With an exactly reporting engine it succeeds
      exactly on what is releasable. */
  method Finish(ledger: Ledger, ghost base: Containers, ghost baseVolumes: Volumes) returns (ok: bool)
    requires ledger.Holds(base, baseVolumes) && ledger.Tracks() && MountsLive(base, baseVolumes)
    modifies ledger, ledger.docker
    ensures ledger.pending == old(ledger.pending) && ledger.volumes == old(ledger.volumes)
    ensures ledger.Holds(base, baseVolumes) && ledger.Tracks()
    ensures ok ==> ledger.docker.containers == base && ledger.docker.volumes == baseVolumes
    ensures ok ==> old(HoldsReleasable(ledger, base))
    ensures ledger.docker.accurate ==> (ok <==> old(HoldsReleasable(ledger, base)))
  {
    hide Secured, SecuredVolumes, KnownImages, TrueRecords, TrueVolumes, AllGone, Cleanable,
         RemovedOnlyIdentified, RemovedOnlyOwned, MountsLive, IsId, Identifiable, LiveContainer, WellFormedContainers;
    ghost var live, volumes := ledger.docker.containers, ledger.docker.volumes;
    PendingAreNotIds(base, live, ledger.pending, ledger.defaults, ledger.owner);
    if ledger.docker.accurate && Releasable(base, live, volumes, ledger.pending, ledger.volumes, ledger.defaults, ledger.owner) {
      HeldIsCleanable(base, live, baseVolumes, volumes, ledger.docker.issued, ledger.pending, ledger.containers,
                      ledger.volumes, ledger.defaults, ledger.owner);
    }
    ghost var records := ledger.containers;
    ok := ledger.Cleanup();
    if ledger.docker.accurate {
      CleanupKeepsRecords(live, ledger.docker.containers, ledger.docker.issued, records, ledger.containers,
                          ledger.defaults, ledger.owner);
    }
    CleanupKeepsOldWorld(base, live, ledger.docker.containers, ledger.pending, ledger.containers,
                         ledger.defaults, ledger.owner);
    VolumesKept(baseVolumes, volumes, ledger.docker.volumes, ledger.volumes, ledger.owner);
    if ok {
      RestoredExactly(base, ledger.docker.containers, baseVolumes, ledger.docker.volumes, ledger.pending,
                      ledger.containers, ledger.volumes, ledger.defaults, ledger.owner);
    }
  }
}
