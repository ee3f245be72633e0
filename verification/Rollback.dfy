/** Cleanup of the rollback fixture and of restore targets
    (packaging/n8n_product_bootstrap_canary.py:689-787, 937-1003). */
module Rollback {
  import opened Outcomes
  import opened Engine
  import opened TextSearch

  // ---- Identity checks -----------------------------------------------------------------------

  /** `validate_runtime`. `binding` is the rendered loopback binding of the n8n port. */
  predicate RuntimeIdentity(row: ContainerRow, job: string, volume: string, id: string, image: string, binding: string) {
    && row.id == id && row.image == image
    && "io.neoth.managed" in row.labels && row.labels["io.neoth.managed"] == "n8n"
    && "io.neoth.n8n-job" in row.labels && row.labels["io.neoth.n8n-job"] == job
    && |row.mounts| == 1 && row.mounts[0].kind == "volume" && row.mounts[0].name == volume
    && row.mounts[0].destination == "/home/node/.n8n"
    && row.portBindings == {binding}
    && row.activePorts == (if row.running then {binding} else {})
  }

  /** `validate_retained_volume`. */
  predicate RetainedVolume(row: VolumeRow, job: string, volume: string) {
    && row.name == volume
    && "io.neoth.managed" in row.labels && row.labels["io.neoth.managed"] == "n8n"
    && "io.neoth.n8n-job" in row.labels && row.labels["io.neoth.n8n-job"] == job
    && "io.neoth.n8n-bootstrap" in row.labels && row.labels["io.neoth.n8n-bootstrap"] == "v2"
  }

  /** 36 characters that are lower-case hexadecimal digits or hyphens. */
  predicate IsJob(s: string) {
    |s| == 36 && forall i :: 0 <= i < |s| ==> IsDigit(s[i]) || 'a' <= s[i] <= 'f' || s[i] == '-'
  }

  const VOLUME_PREFIX := "neoth_n8n_"

  predicate IsVolumeName(s: string) {
    VOLUME_PREFIX <= s && Hex(s[|VOLUME_PREFIX|..], 32)
  }

  function WithoutHyphens(s: string): string {
    if s == "" then "" else (if s[0] == '-' then "" else [s[0]]) + WithoutHyphens(s[1..])
  }

  /** `restore_volume_name`. */
  function RestoreVolumeName(job: string): Option<string> {
    if IsJob(job) then Some(VOLUME_PREFIX + WithoutHyphens(job)) else None
  }

  function RestoreLabels(job: string): map<string, string> {
    map["io.neoth.managed" := "n8n", "io.neoth.n8n-restore" := job, "io.neoth.n8n-restore-schema" := "1"]
  }

  /** `validate_restore_volume`. */
  predicate RestoreVolume(row: VolumeRow, job: string, live: string) {
    && RestoreVolumeName(job).Some? && RestoreVolumeName(job).value != live
    && row.name == RestoreVolumeName(job).value && row.labels == RestoreLabels(job)
  }

  // ---- Guarded removals ----------------------------------------------------------------------

  /** Removal of a volume is permitted only once its container is proven absent and its row has
      passed the label check. */
  method RemoveGuardedVolume(docker: Docker, name: string, ghost container: string, ghost checked: bool) returns (ok: bool)
    requires docker.Valid() && !LiveContainer(docker.containers, container)
    requires checked && name in docker.volumes
    modifies docker`volumes
    ensures docker.Valid()
    ensures docker.volumes == old(docker.volumes) || docker.volumes == old(docker.volumes) - {name}
    ensures ok ==> name !in docker.volumes
    ensures docker.accurate && (forall id :: id in docker.containers ==> !Mounts(docker.containers[id], name)) ==> ok
  {
    var removed := docker.RemoveVolume(name);
    if !removed {
      return false;
    }
    var answer := docker.VolumeAbsent(name);
    return answer == Proven;
  }

  ghost predicate Unmounted(containers: Containers, volume: string) {
    forall id :: id in containers ==> !Mounts(containers[id], volume)
  }

  datatype OldWitness = OldWitness(id: string, name: string, job: string, volume: string)
  datatype NewWitness = NewWitness(id: string, job: string, volume: string)
  datatype RestoreWitness = RestoreWitness(job: string, volume: string)

  predicate OldIdentity(row: ContainerRow, w: OldWitness, image: string, binding: string) {
    RuntimeIdentity(row, w.job, w.volume, w.id, image, binding) && Named(row, w.name)
  }

  predicate NewIdentity(row: ContainerRow, w: NewWitness, image: string, binding: string) {
    RuntimeIdentity(row, w.job, w.volume, w.id, image, binding)
  }

  /** Inspect, check, `docker rm -f`, prove absent; any exception is `false`. */
  method RemoveRuntime(docker: Docker, id: string, identity: ContainerRow -> bool) returns (ok: bool)
    requires docker.Valid()
    modifies docker`containers
    ensures docker.Valid()
    ensures docker.containers == old(docker.containers) ||
            (id in old(docker.containers) && identity(old(docker.containers)[id]) &&
             docker.containers == old(docker.containers) - {id})
    ensures ok ==> !LiveContainer(docker.containers, id)
    ensures docker.accurate && id in old(docker.containers) && identity(old(docker.containers)[id]) ==> ok
  {
    assert id in docker.containers ==> AnswersTo(docker.containers[id], id) && LiveContainer(docker.containers, id);
    var found := docker.Inspect(id);
    if !found.FoundContainer? || found.container.id != id || !identity(found.container) {
      return false;
    }
    RemovedIdGone(docker.containers, id);
    var removed := docker.RemoveContainer(id);
    if !removed {
      return false;
    }
    var answer := docker.ContainerAbsent(id);
    return answer == Proven;
  }

  lemma LiveShrinks(live: Containers, later: Containers, identifier: string)
    requires OnlyRemovals(live, later) && LiveContainer(later, identifier)
    ensures LiveContainer(live, identifier)
  {
  }

  /** Inspect, label check, `docker volume rm`, prove absent; any exception is `false`. */
  method RemoveVolume(docker: Docker, name: string, ghost container: string, identity: VolumeRow -> bool) returns (ok: bool)
    requires docker.Valid() && !LiveContainer(docker.containers, container)
    modifies docker`volumes
    ensures docker.Valid()
    ensures docker.volumes == old(docker.volumes) ||
            (name in old(docker.volumes) && identity(old(docker.volumes)[name]) &&
             docker.volumes == old(docker.volumes) - {name})
    ensures ok ==> name !in docker.volumes
    ensures docker.accurate && name in old(docker.volumes) && identity(old(docker.volumes)[name]) ==>
            (!LiveContainer(docker.containers, name) && Unmounted(docker.containers, name) ==> ok)
  {
    var found := docker.Inspect(name);
    if !found.FoundVolume? || !identity(found.volume) {
      return false;
    }
    ok := RemoveGuardedVolume(docker, name, container, identity(docker.volumes[name]));
  }

  // ---- The rollback fixture ------------------------------------------------------------------

  /** Nothing but `own` stands in the way of removing a volume. */
  ghost predicate Removable(containers: Containers, volume: string, own: string) {
    !LiveContainer(containers, volume) && forall id :: id in containers && id != own ==> !Mounts(containers[id], volume)
  }

  /** The old side is as its witness says. */
  ghost predicate OldSideKnown(containers: Containers, volumes: Volumes, w: OldWitness, image: string, binding: string) {
    && w.id in containers && OldIdentity(containers[w.id], w, image, binding)
    && w.volume in volumes && RetainedVolume(volumes[w.volume], w.job, w.volume)
    && Removable(containers, w.volume, w.id)
  }

  /** The new side is as its agreeing witnesses say, its container possibly gone already. */
  ghost predicate NewSideKnown(containers: Containers, volumes: Volumes, live: string, w: NewWitness,
                               restore: RestoreWitness, image: string, binding: string, absent: bool) {
    && restore.volume == w.volume
    && (if absent then !LiveContainer(containers, w.id) else w.id in containers && NewIdentity(containers[w.id], w, image, binding))
    && w.volume in volumes && RestoreVolume(volumes[w.volume], restore.job, live)
    && Removable(containers, w.volume, w.id)
  }

  lemma NotLiveNotMapped(containers: Containers, id: string)
    requires WellFormedContainers(containers) && !LiveContainer(containers, id)
    ensures id !in containers
  {
    assert id in containers ==> AnswersTo(containers[id], id);
  }

  /** With its own container gone, a removable volume is neither answered to nor mounted. */
  lemma NowUnmounted(first: Containers, later: Containers, volume: string, own: string)
    requires WellFormedContainers(later) && OnlyRemovals(first, later) && !LiveContainer(later, own)
    ensures Removable(first, volume, own) ==> !LiveContainer(later, volume) && Unmounted(later, volume)
  {
    hide Mounts, WellFormedContainers;
    NotLiveNotMapped(later, own);
    if LiveContainer(later, volume) {
      LiveShrinks(first, later, volume);
    }
  }

  /** The old side cannot spoil the new one: it takes only its own container and volume. */
  lemma NewSideSurvives(first: Containers, volumes: Volumes, later: Containers, volumes': Volumes, old': OldWitness,
                        w: NewWitness, restore: RestoreWitness, image: string, binding: string, absent: bool)
    requires WellFormedVolumes(volumes) && old'.id != w.id
    requires later == first || later == first - {old'.id}
    requires volumes' == volumes || volumes' == volumes - {old'.volume}
    ensures NewSideKnown(first, volumes, old'.volume, w, restore, image, binding, absent) ==>
            NewSideKnown(later, volumes', old'.volume, w, restore, image, binding, absent)
  {
    hide NewIdentity, Mounts, LiveContainer, RestoreVolumeName, RestoreLabels;
    if LiveContainer(later, w.volume) {
      LiveShrinks(first, later, w.volume);
    }
    if LiveContainer(later, w.id) {
      LiveShrinks(first, later, w.id);
    }
  }

  /** The old side: the container, then its volume only if the container is proven gone. */
  method CleanOld(docker: Docker, old': OldWitness, image: string, binding: string) returns (container: bool, volume: bool)
    requires docker.Valid()
    modifies docker`containers, docker`volumes
    ensures docker.Valid()
    ensures container ==> !LiveContainer(docker.containers, old'.id)
    ensures volume ==> container && old'.volume !in docker.volumes
    ensures docker.containers == old(docker.containers) ||
            (old'.id in old(docker.containers) && OldIdentity(old(docker.containers)[old'.id], old', image, binding) &&
             docker.containers == old(docker.containers) - {old'.id})
    ensures docker.volumes == old(docker.volumes) ||
            (old'.volume in old(docker.volumes) && RetainedVolume(old(docker.volumes)[old'.volume], old'.job, old'.volume) &&
             docker.volumes == old(docker.volumes) - {old'.volume} && !LiveContainer(docker.containers, old'.id))
    ensures docker.accurate && old'.id in old(docker.containers) ==>
            (OldIdentity(old(docker.containers)[old'.id], old', image, binding) ==> container)
    ensures docker.accurate && container && old'.volume in old(docker.volumes) ==>
            (RetainedVolume(old(docker.volumes)[old'.volume], old'.job, old'.volume) ==>
             (!LiveContainer(docker.containers, old'.volume) && Unmounted(docker.containers, old'.volume) ==> volume))
    ensures docker.accurate && OldSideKnown(old(docker.containers), old(docker.volumes), old', image, binding) ==> container && volume
  {
    hide OldIdentity, RetainedVolume, Mounts, LiveContainer, Unmounted, Removable, WellFormedContainers;
    container := RemoveRuntime(docker, old'.id, row => OldIdentity(row, old', image, binding));
    volume := false;
    if container {
      NowUnmounted(old(docker.containers), docker.containers, old'.volume, old'.id);
      volume := RemoveVolume(docker, old'.volume, old'.id, row => RetainedVolume(row, old'.job, old'.volume));
    }
  }

  /** The new side: the container, then the restore volume only if the witnesses agree on it and
      the container is proven gone. */
  method CleanNew(docker: Docker, new': NewWitness, restore: Option<RestoreWitness>, live: string,
                  image: string, binding: string, containerAbsent: bool, volumeAbsent: bool)
    returns (container: bool, volume: bool)
    requires docker.Valid()
    modifies docker`containers, docker`volumes
    ensures docker.Valid()
    ensures container ==> !LiveContainer(docker.containers, new'.id)
    ensures volume ==> container && restore.Some? && restore.value.volume == new'.volume && new'.volume !in docker.volumes
    ensures docker.containers == old(docker.containers) ||
            (new'.id in old(docker.containers) && NewIdentity(old(docker.containers)[new'.id], new', image, binding) &&
             docker.containers == old(docker.containers) - {new'.id})
    ensures docker.volumes == old(docker.volumes) ||
            (restore.Some? && new'.volume in old(docker.volumes) &&
             RestoreVolume(old(docker.volumes)[new'.volume], restore.value.job, live) &&
             docker.volumes == old(docker.volumes) - {new'.volume} && !LiveContainer(docker.containers, new'.id))
    ensures docker.accurate && !containerAbsent && new'.id in old(docker.containers) ==>
            (NewIdentity(old(docker.containers)[new'.id], new', image, binding) ==> container)
    ensures docker.accurate && container && !volumeAbsent && restore.Some? && new'.volume in old(docker.volumes) ==>
            (restore.value.volume == new'.volume && RestoreVolume(old(docker.volumes)[new'.volume], restore.value.job, live) ==>
             (!LiveContainer(docker.containers, new'.volume) && Unmounted(docker.containers, new'.volume) ==> volume))
    // what is said to be absent already is only looked at
    ensures containerAbsent ==> docker.containers == old(docker.containers)
    ensures volumeAbsent ==> docker.volumes == old(docker.volumes)
    ensures docker.accurate && containerAbsent ==> (container <==> !LiveContainer(docker.containers, new'.id))
    ensures docker.accurate && container && volumeAbsent && restore.Some? && restore.value.volume == new'.volume ==>
            (volume <==> new'.volume !in docker.volumes)
    ensures docker.accurate && !volumeAbsent && restore.Some? ==>
            (NewSideKnown(old(docker.containers), old(docker.volumes), live, new', restore.value, image, binding, containerAbsent) ==>
             container && volume)
  {
    hide NewIdentity, RestoreVolume, Mounts, LiveContainer, Unmounted, Removable, WellFormedContainers;
    if containerAbsent {
      var answer := docker.ContainerAbsent(new'.id);
      container := answer == Proven;
    } else {
      container := RemoveRuntime(docker, new'.id, row => NewIdentity(row, new', image, binding));
    }
    volume := false;
    if restore.Some? && container && restore.value.volume == new'.volume {
      NowUnmounted(old(docker.containers), docker.containers, new'.volume, new'.id);
      if volumeAbsent {
        var answer := docker.VolumeAbsent(new'.volume);
        volume := answer == Proven;
      } else {
        volume := RemoveVolume(docker, new'.volume, new'.id, row => RestoreVolume(row, restore.value.job, live));
      }
    }
  }

  function Unless<T>(absent: bool, w: Option<T>): Option<T> {
    if absent then None else w
  }

  /** The volume the restore volume must differ from. */
  function LiveVolume(old': Option<OldWitness>): string {
    if old'.Some? then old'.value.volume else ""
  }

  /** The new side is known, and its container is not also witnessed as the old one. */
  ghost predicate NewSideOwn(containers: Containers, volumes: Volumes, old': Option<OldWitness>, new': NewWitness,
                             restore: RestoreWitness, image: string, binding: string, absent: bool) {
    && (old'.Some? ==> old'.value.id != new'.id)
    && NewSideKnown(containers, volumes, LiveVolume(old'), new', restore, image, binding, absent)
  }

  /** Nothing changed but the two witnessed containers, each gone only after its identity check. */
  ghost predicate OnlyWitnessedContainers(first: Containers, later: Containers, old': Option<OldWitness>, new': Option<NewWitness>,
                                          image: string, binding: string) {
    && OnlyRemovals(first, later)
    && forall id :: id in first && id !in later ==>
      || (old'.Some? && id == old'.value.id && OldIdentity(first[id], old'.value, image, binding))
      || (new'.Some? && id == new'.value.id && NewIdentity(first[id], new'.value, image, binding))
  }

  /** Nothing changed but the two witnessed volumes, each gone only after its label check and with
      its container gone. */
  ghost predicate OnlyWitnessedVolumes(first: Volumes, later: Volumes, containers: Containers, old': Option<OldWitness>,
                                       new': Option<NewWitness>, restore: Option<RestoreWitness>) {
    && OnlyRemovals(first, later)
    && forall v :: v in first && v !in later ==>
      || (old'.Some? && v == old'.value.volume && RetainedVolume(first[v], old'.value.job, v) &&
          !LiveContainer(containers, old'.value.id))
      || (new'.Some? && restore.Some? && v == new'.value.volume && RestoreVolume(first[v], restore.value.job, LiveVolume(old')) &&
          !LiveContainer(containers, new'.value.id))
  }

  lemma ContainersTaken(first: Containers, between: Containers, later: Containers, old': Option<OldWitness>,
                        new': Option<NewWitness>, image: string, binding: string)
    requires between == first ||
             (old'.Some? && old'.value.id in first && OldIdentity(first[old'.value.id], old'.value, image, binding) &&
              between == first - {old'.value.id})
    requires later == between ||
             (new'.Some? && new'.value.id in between && NewIdentity(between[new'.value.id], new'.value, image, binding) &&
              later == between - {new'.value.id})
    ensures OnlyWitnessedContainers(first, later, old', new', image, binding) && OnlyRemovals(between, later)
    ensures forall identifier :: LiveContainer(later, identifier) ==> LiveContainer(between, identifier)
  {
    hide OldIdentity, NewIdentity, AnswersTo;
  }

  lemma VolumesTaken(first: Volumes, between: Volumes, later: Volumes, containers: Containers, old': Option<OldWitness>,
                     new': Option<NewWitness>, restore: Option<RestoreWitness>)
    requires between == first ||
             (old'.Some? && old'.value.volume in first && between == first - {old'.value.volume} &&
              RetainedVolume(first[old'.value.volume], old'.value.job, old'.value.volume) && !LiveContainer(containers, old'.value.id))
    requires later == between ||
             (new'.Some? && restore.Some? && new'.value.volume in between && later == between - {new'.value.volume} &&
              RestoreVolume(between[new'.value.volume], restore.value.job, LiveVolume(old')) && !LiveContainer(containers, new'.value.id))
    ensures OnlyWitnessedVolumes(first, later, containers, old', new', restore) && OnlyRemovals(between, later)
  {
    hide RetainedVolume, RestoreVolume, LiveContainer;
  }

  /** The old side: a missing witness is a failure, never a guess. */
  method CleanOldSide(docker: Docker, old': Option<OldWitness>, image: string, binding: string) returns (ok: bool)
    requires docker.Valid()
    modifies docker`containers, docker`volumes
    ensures docker.Valid()
    ensures ok ==> old'.Some? && !LiveContainer(docker.containers, old'.value.id) && old'.value.volume !in docker.volumes
    ensures docker.containers == old(docker.containers) ||
            (old'.Some? && old'.value.id in old(docker.containers) &&
             OldIdentity(old(docker.containers)[old'.value.id], old'.value, image, binding) &&
             docker.containers == old(docker.containers) - {old'.value.id})
    ensures docker.volumes == old(docker.volumes) ||
            (old'.Some? && old'.value.volume in old(docker.volumes) &&
             RetainedVolume(old(docker.volumes)[old'.value.volume], old'.value.job, old'.value.volume) &&
             docker.volumes == old(docker.volumes) - {old'.value.volume} && !LiveContainer(docker.containers, old'.value.id))
    ensures docker.accurate && docker.containers != old(docker.containers) ==> !LiveContainer(docker.containers, old'.value.id)
    ensures docker.accurate && old'.Some? ==>
            (OldSideKnown(old(docker.containers), old(docker.volumes), old'.value, image, binding) ==> ok)
  {
    hide OldIdentity, RetainedVolume, Mounts, Unmounted, LiveContainer, WellFormedContainers, MountsLive, OldSideKnown;
    if old'.None? {
      return false;
    }
    var container, volume := CleanOld(docker, old'.value, image, binding);
    ok := container && volume;
  }

  /** The new side. */
  method CleanNewSide(docker: Docker, new': Option<NewWitness>, restore: Option<RestoreWitness>, live: string,
                      image: string, binding: string, newAbsent: bool, restoreAbsent: bool) returns (ok: bool)
    requires docker.Valid()
    modifies docker`containers, docker`volumes
    ensures docker.Valid()
    ensures ok ==> new'.Some? && !LiveContainer(docker.containers, new'.value.id)
    ensures ok ==> restore.Some? && restore.value.volume == new'.value.volume && restore.value.volume !in docker.volumes
    ensures docker.containers == old(docker.containers) ||
            (Unless(newAbsent, new').Some? && new'.value.id in old(docker.containers) &&
             NewIdentity(old(docker.containers)[new'.value.id], new'.value, image, binding) &&
             docker.containers == old(docker.containers) - {new'.value.id})
    ensures docker.volumes == old(docker.volumes) ||
            (new'.Some? && Unless(restoreAbsent, restore).Some? && new'.value.volume in old(docker.volumes) &&
             docker.volumes == old(docker.volumes) - {new'.value.volume} &&
             RestoreVolume(old(docker.volumes)[new'.value.volume], restore.value.job, live) &&
             !LiveContainer(docker.containers, new'.value.id))
    ensures docker.accurate && !newAbsent && new'.Some? && new'.value.id in old(docker.containers) ==>
            (NewIdentity(old(docker.containers)[new'.value.id], new'.value, image, binding) ==>
             !LiveContainer(docker.containers, new'.value.id))
    ensures docker.accurate && new'.Some? && restore.Some? && !restoreAbsent ==>
            (NewSideKnown(old(docker.containers), old(docker.volumes), live, new'.value, restore.value, image, binding, newAbsent) ==>
             ok)
  {
    hide NewIdentity, RestoreVolume, Mounts, Unmounted, LiveContainer, WellFormedContainers, MountsLive, NewSideKnown;
    if new'.None? {
      return false;
    }
    var container, volume := CleanNew(docker, new'.value, restore, live, image, binding, newAbsent, restoreAbsent);
    ok := container && volume;
  }

  /** `cleanup_rollback_fixture`. */
  method CleanupRollbackFixture(docker: Docker, old': Option<OldWitness>, new': Option<NewWitness>,
                                restore: Option<RestoreWitness>, image: string, binding: string,
                                newAbsent: bool, restoreAbsent: bool) returns (ok: bool)
    requires docker.Valid()
    modifies docker`containers, docker`volumes
    ensures docker.Valid()
    // success proves all four resources absent, on complete and agreeing witnesses
    ensures ok ==> old'.Some? && !LiveContainer(docker.containers, old'.value.id) && old'.value.volume !in docker.volumes
    ensures ok ==> new'.Some? && !LiveContainer(docker.containers, new'.value.id)
    ensures ok ==> restore.Some? && restore.value.volume == new'.value.volume && restore.value.volume !in docker.volumes
    // only identified containers are removed; one said to be absent already is only looked at
    ensures OnlyWitnessedContainers(old(docker.containers), docker.containers, old', Unless(newAbsent, new'), image, binding)
    // only labelled volumes are removed, and only with their container gone
    ensures OnlyWitnessedVolumes(old(docker.volumes), docker.volumes, docker.containers, old', new', Unless(restoreAbsent, restore))
    // whatever happens on the old side, the new container is attempted
    ensures docker.accurate && !newAbsent && new'.Some? && new'.value.id in old(docker.containers) ==>
            (NewIdentity(old(docker.containers)[new'.value.id], new'.value, image, binding) ==>
             !LiveContainer(docker.containers, new'.value.id))
    // and so is the restore volume
    ensures docker.accurate && new'.Some? && restore.Some? && !restoreAbsent ==>
            (NewSideOwn(old(docker.containers), old(docker.volumes), old', new'.value, restore.value, image, binding, newAbsent) ==>
             !LiveContainer(docker.containers, new'.value.id) && new'.value.volume !in docker.volumes)
    // the old side is removed whatever the new side is
    ensures docker.accurate && old'.Some? ==>
            (OldSideKnown(old(docker.containers), old(docker.volumes), old'.value, image, binding) ==>
             !LiveContainer(docker.containers, old'.value.id) && old'.value.volume !in docker.volumes)
    // with both sides known an exactly reporting engine lets it succeed
    ensures docker.accurate && old'.Some? && new'.Some? && restore.Some? && !restoreAbsent ==>
            (OldSideKnown(old(docker.containers), old(docker.volumes), old'.value, image, binding) ==>
             (NewSideOwn(old(docker.containers), old(docker.volumes), old', new'.value, restore.value, image, binding, newAbsent) ==> ok))
  {
    hide OldIdentity, NewIdentity, RetainedVolume, RestoreVolume, Mounts, Unmounted, LiveContainer,
         WellFormedContainers, MountsLive, Removable, OldSideKnown, NewSideKnown;
    ghost var first, volumes := docker.containers, docker.volumes;
    var oldGone := CleanOldSide(docker, old', image, binding);
    ghost var between, between' := docker.containers, docker.volumes;
    if old'.Some? && new'.Some? && restore.Some? && old'.value.id != new'.value.id {
      NewSideSurvives(first, volumes, between, between', old'.value, new'.value, restore.value, image, binding, newAbsent);
    }
    var newGone := CleanNewSide(docker, new', restore, LiveVolume(old'), image, binding, newAbsent, restoreAbsent);
    ok := oldGone && newGone;
    hide OnlyWitnessedContainers, OnlyWitnessedVolumes;
    ContainersTaken(first, between, docker.containers, old', Unless(newAbsent, new'), image, binding);
    VolumesTaken(volumes, between', docker.volumes, docker.containers, old', new', Unless(restoreAbsent, restore));
  }

  // ---- Restore targets -----------------------------------------------------------------------

  datatype Target = Target(job: string, candidate: string, volume: string)

  predicate Targetable(row: VolumeRow, t: Target, live: string) {
    RestoreVolumeName(t.job) == Some(t.volume) && IsId(t.candidate) && RestoreVolume(row, t.job, live)
  }

  /** `cleanup_restore_volume`. */
  method CleanupRestoreVolume(docker: Docker, t: Target, live: string) returns (ok: bool)
    requires docker.Valid()
    modifies docker`volumes
    ensures docker.Valid()
    ensures docker.volumes == old(docker.volumes) ||
            (t.volume in old(docker.volumes) && Targetable(old(docker.volumes)[t.volume], t, live) &&
             !LiveContainer(docker.containers, t.candidate) && docker.volumes == old(docker.volumes) - {t.volume})
    ensures ok ==> t.volume !in docker.volumes && !LiveContainer(docker.containers, t.candidate)
    ensures docker.accurate && t.volume in old(docker.volumes) && Targetable(old(docker.volumes)[t.volume], t, live) ==>
            (!LiveContainer(docker.containers, t.candidate) && !LiveContainer(docker.containers, t.volume) ==>
             (Unmounted(docker.containers, t.volume) ==> ok))
  {
    hide RestoreVolume, Mounts, LiveContainer, Unmounted, IsId, RestoreVolumeName;
    if RestoreVolumeName(t.job) != Some(t.volume) || !IsId(t.candidate) {
      return false;
    }
    var answer := docker.ContainerAbsent(t.candidate);
    if answer != Proven {
      return false;
    }
    ok := RemoveVolume(docker, t.volume, t.candidate, row => RestoreVolume(row, t.job, live));
  }

  /** A target whose volume is live and nothing stands in the way of removing. */
  ghost predicate Clearable(containers: Containers, volumes: Volumes, t: Target, live: string) {
    t.volume in volumes && Targetable(volumes[t.volume], t, live) && !LiveContainer(containers, t.candidate) &&
    !LiveContainer(containers, t.volume) && Unmounted(containers, t.volume)
  }

  /** `cleanup_restore_targets`: every target is attempted, newest first, whatever the others do. */
  method CleanupRestoreTargets(docker: Docker, targets: seq<Target>, live: string) returns (ok: bool)
    requires docker.Valid()
    modifies docker`volumes
    ensures docker.Valid()
    ensures ok ==> forall t :: t in targets ==> t.volume !in docker.volumes && !LiveContainer(docker.containers, t.candidate)
    ensures OnlyRemovals(old(docker.volumes), docker.volumes)
    ensures forall v :: v in old(docker.volumes) && v !in docker.volumes ==>
              exists t :: t in targets && t.volume == v && Targetable(old(docker.volumes)[v], t, live)
    ensures docker.accurate ==>
            forall t :: t in targets && Clearable(docker.containers, old(docker.volumes), t, live) ==> t.volume !in docker.volumes
  {
    hide Targetable, Mounts, LiveContainer, Unmounted;
    ghost var first := docker.volumes;
    ok := true;
    var i := |targets|;
    while i > 0
      invariant 0 <= i <= |targets|
      invariant docker.Valid()
      invariant ok ==> forall j :: i <= j < |targets| ==>
                  targets[j].volume !in docker.volumes && !LiveContainer(docker.containers, targets[j].candidate)
      invariant OnlyRemovals(first, docker.volumes)
      invariant forall v :: v in first && v !in docker.volumes ==>
                  exists t :: t in targets && t.volume == v && Targetable(first[v], t, live)
      invariant docker.accurate ==> forall j :: i <= j < |targets| ==>
                  (Clearable(docker.containers, first, targets[j], live) ==> targets[j].volume !in docker.volumes)
    {
      i := i - 1;
      var done := CleanupRestoreVolume(docker, targets[i], live);
      ok := ok && done;
    }
  }

  // ---- Transfer of custody -------------------------------------------------------------------

  datatype Receipt = Receipt(newId: string, retainedName: Option<string>, rollbackJob: string, restoreVolume: string)

  function FirstIndex<T(==)>(s: seq<T>, x: T): (k: nat)
    requires x in s
    ensures k < |s| && s[k] == x && forall i :: 0 <= i < k ==> s[i] != x
  {
    if s[0] == x then 0 else 1 + FirstIndex(s[1..], x)
  }

  lemma RemoveAt<T>(s: seq<T>, k: nat)
    requires k < |s|
    ensures multiset(s) == multiset(s[..k] + s[k + 1..]) + multiset{s[k]}
  {
    assert s == s[..k] + [s[k]] + s[k + 1..];
  }

  predicate TransferAllowed(receipt: Receipt, oldId: string, oldJob: string, oldVolume: string, restoreJob: string,
                            target: Target, targets: seq<Target>) {
    && IsId(oldId) && IsJob(oldJob) && IsVolumeName(oldVolume)
    && IsId(receipt.newId) && receipt.retainedName.Some? && IsJob(receipt.rollbackJob)
    && IsVolumeName(receipt.restoreVolume) && IsId(target.candidate)
    && target.job == restoreJob && target.volume == receipt.restoreVolume && target in targets
  }

  /** `capture_rollback_cleanup_custody`: the caller's list after the call is `rest`. The transfer
      moves exactly the one target, keeps the others in order, and a rejection changes nothing. */
  method CaptureCustody(receipt: Receipt, oldId: string, oldJob: string, oldVolume: string, restoreJob: string,
                        target: Target, targets: seq<Target>)
    returns (moved: Option<(OldWitness, NewWitness, RestoreWitness)>, rest: seq<Target>)
    ensures moved.Some? <==> TransferAllowed(receipt, oldId, oldJob, oldVolume, restoreJob, target, targets)
    ensures moved.None? ==> rest == targets
    ensures moved.Some? ==> multiset(targets) == multiset(rest) + multiset{Target(moved.value.2.job, target.candidate, moved.value.2.volume)}
    ensures moved.Some? ==> var k := FirstIndex(targets, target); rest == targets[..k] + targets[k + 1..]
    ensures moved.Some? ==> moved.value.0.id == oldId && moved.value.0.volume == oldVolume && moved.value.1.id == receipt.newId
    ensures moved.Some? ==> moved.value.1.volume == moved.value.2.volume == target.volume == receipt.restoreVolume
    ensures moved.Some? ==> moved.value.0.job == oldJob && Some(moved.value.0.name) == receipt.retainedName
    ensures moved.Some? ==> moved.value.1.job == receipt.rollbackJob && moved.value.2.job == restoreJob
  {
    if !TransferAllowed(receipt, oldId, oldJob, oldVolume, restoreJob, target, targets) {
      return None, targets;
    }
    var k := FirstIndex(targets, target); // list.remove drops the first occurrence
    RemoveAt(targets, k);
    rest := targets[..k] + targets[k + 1..];
    moved := Some((OldWitness(oldId, receipt.retainedName.value, oldJob, oldVolume),
                   NewWitness(receipt.newId, receipt.rollbackJob, receipt.restoreVolume),
                   RestoreWitness(restoreJob, receipt.restoreVolume)));
  }

  // ---- What the checks demand ----------------------------------------------------------------

  lemma {:induction false} HyphensDropped(s: string)
    ensures '-' !in s ==> WithoutHyphens(s) == s
    ensures '-' !in WithoutHyphens(s)
  {
    if s != "" {
      HyphensDropped(s[1..]);
      assert s == [s[0]] + s[1..];
    }
  }

  lemma FirstDropped(s: string)
    requires s != ""
    ensures WithoutHyphens(s) == (if s[0] == '-' then "" else [s[0]]) + WithoutHyphens(s[1..])
  {
  }

  lemma {:induction false} HyphensDroppedConcat(a: string, b: string)
    ensures WithoutHyphens(a + b) == WithoutHyphens(a) + WithoutHyphens(b)
  {
    if a == "" {
      assert a + b == b;
    } else {
      HyphensDroppedConcat(a[1..], b);
      FirstDropped(a);
      FirstDropped(a + b);
      hide WithoutHyphens;
      HeadAndTail(a, b, if a[0] == '-' then "" else [a[0]], WithoutHyphens(a[1..]), WithoutHyphens(b));
    }
  }

  lemma HeadAndTail(a: string, b: string, head: string, x: string, y: string)
    requires a != ""
    ensures (a + b)[1..] == a[1..] + b && (a + b)[0] == a[0] && (head + x) + y == head + (x + y)
  {
  }

  /** A job id in five groups names the volume of their concatenation. */
  lemma RestoreVolumeNamed(a: string, b: string)
    requires '-' !in b && IsJob(a + "-" + b)
    ensures RestoreVolumeName(a + "-" + b) == Some("neoth_n8n_" + (WithoutHyphens(a) + b))
  {
    HyphensDroppedConcat(a + "-", b);
    HyphensDroppedConcat(a, "-");
    HyphensDropped(b);
    assert "-"[1..] == "";
    assert WithoutHyphens(a) + "" == WithoutHyphens(a);
  }

  /** A container that passes the runtime check. */
  lemma RuntimeIdentityMeans(row: ContainerRow, job: string, volume: string, id: string, image: string, binding: string)
    requires RuntimeIdentity(row, job, volume, id, image, binding)
    ensures row.id == id && row.image == image && row.portBindings == {binding}
    ensures "io.neoth.managed" in row.labels && row.labels["io.neoth.managed"] == "n8n"
    ensures "io.neoth.n8n-job" in row.labels && row.labels["io.neoth.n8n-job"] == job
    ensures exists source, rw :: row.mounts == [Mount("volume", volume, "/home/node/.n8n", source, rw)]
    ensures row.activePorts == if row.running then {binding} else {}
  {
    var m := row.mounts[0];
    assert row.mounts == [Mount("volume", volume, "/home/node/.n8n", m.source, m.rw)];
  }

  /** A volume that passes one of the two label checks. */
  lemma VolumeChecksMean(row: VolumeRow, job: string, volume: string, live: string)
    ensures RetainedVolume(row, job, volume) ==>
              && row.name == volume
              && "io.neoth.managed" in row.labels && row.labels["io.neoth.managed"] == "n8n"
              && "io.neoth.n8n-job" in row.labels && row.labels["io.neoth.n8n-job"] == job
              && "io.neoth.n8n-bootstrap" in row.labels && row.labels["io.neoth.n8n-bootstrap"] == "v2"
    ensures RestoreVolume(row, job, live) ==>
              && IsJob(job) && row.name == "neoth_n8n_" + WithoutHyphens(job) != live
              && row.labels == map["io.neoth.managed" := "n8n", "io.neoth.n8n-restore" := job, "io.neoth.n8n-restore-schema" := "1"]
  {
  }

  // ---- Transfer, then cleanup ----------------------------------------------------------------

  /** An n8n container as the product makes it; `other` gives what no check looks at. */
  function RuntimeRow(other: ContainerRow, id: string, name: string, job: string, volume: string, image: string,
                      binding: string): ContainerRow {
    other.(id := id, name := "/" + name, image := image,
           labels := other.labels["io.neoth.managed" := "n8n"]["io.neoth.n8n-job" := job],
           mounts := [Mount("volume", volume, "/home/node/.n8n", "volumes/" + volume, true)],
           portBindings := {binding}, activePorts := if other.running then {binding} else {})
  }

  function RetainedRow(other: map<string, string>, job: string, volume: string): VolumeRow {
    VolumeRow(volume, other["io.neoth.managed" := "n8n"]["io.neoth.n8n-job" := job]["io.neoth.n8n-bootstrap" := "v2"])
  }

  lemma RuntimeRowPasses(other: ContainerRow, id: string, name: string, job: string, volume: string, image: string, binding: string)
    ensures var row := RuntimeRow(other, id, name, job, volume, image, binding);
            RuntimeIdentity(row, job, volume, id, image, binding) && Named(row, name)
  {
    assert |"io.neoth.managed"| == 16 && |"io.neoth.n8n-job"| == 16 && "io.neoth.managed"[9] != "io.neoth.n8n-job"[9];
  }

  lemma RetainedRowPasses(other: map<string, string>, job: string, volume: string)
    ensures RetainedVolume(RetainedRow(other, job, volume), job, volume)
  {
    assert |"io.neoth.managed"| == 16 && |"io.neoth.n8n-job"| == 16 && "io.neoth.managed"[9] != "io.neoth.n8n-job"[9];
    assert |"io.neoth.n8n-bootstrap"| == 22;
  }

  /** The fixture is live as the receipt and the caller's arguments say. */
  ghost predicate FixtureLive(containers: Containers, volumes: Volumes, receipt: Receipt, oldId: string, oldJob: string,
                              oldVolume: string, restoreJob: string, image: string, binding: string) {
    && receipt.retainedName.Some? && oldId != receipt.newId
    && oldId in containers && receipt.newId in containers && oldVolume in volumes && receipt.restoreVolume in volumes
    && (exists other :: containers[oldId] ==
          RuntimeRow(other, oldId, receipt.retainedName.value, oldJob, oldVolume, image, binding))
    && (exists other, name :: containers[receipt.newId] ==
          RuntimeRow(other, receipt.newId, name, receipt.rollbackJob, receipt.restoreVolume, image, binding))
    && (exists other :: volumes[oldVolume] == RetainedRow(other, oldJob, oldVolume))
    && RestoreVolumeName(restoreJob) == Some(receipt.restoreVolume) && receipt.restoreVolume != oldVolume
    && volumes[receipt.restoreVolume] == VolumeRow(receipt.restoreVolume, RestoreLabels(restoreJob))
    && Removable(containers, oldVolume, oldId) && Removable(containers, receipt.restoreVolume, receipt.newId)
  }

  lemma FixtureKnown(containers: Containers, volumes: Volumes, receipt: Receipt, oldId: string, oldJob: string,
                     oldVolume: string, restoreJob: string, image: string, binding: string)
    requires FixtureLive(containers, volumes, receipt, oldId, oldJob, oldVolume, restoreJob, image, binding)
    ensures OldSideKnown(containers, volumes, OldWitness(oldId, receipt.retainedName.value, oldJob, oldVolume), image, binding)
    ensures NewSideOwn(containers, volumes, Some(OldWitness(oldId, receipt.retainedName.value, oldJob, oldVolume)),
                       NewWitness(receipt.newId, receipt.rollbackJob, receipt.restoreVolume),
                       RestoreWitness(restoreJob, receipt.restoreVolume), image, binding, false)
  {
    hide RuntimeIdentity, RuntimeRow, RetainedVolume, RetainedRow, Removable, RestoreVolumeName, RestoreLabels;
    var a :| containers[oldId] == RuntimeRow(a, oldId, receipt.retainedName.value, oldJob, oldVolume, image, binding);
    RuntimeRowPasses(a, oldId, receipt.retainedName.value, oldJob, oldVolume, image, binding);
    var b, name :| containers[receipt.newId] ==
                   RuntimeRow(b, receipt.newId, name, receipt.rollbackJob, receipt.restoreVolume, image, binding);
    RuntimeRowPasses(b, receipt.newId, name, receipt.rollbackJob, receipt.restoreVolume, image, binding);
    var c :| volumes[oldVolume] == RetainedRow(c, oldJob, oldVolume);
    RetainedRowPasses(c, oldJob, oldVolume);
  }

  /** Custody that was transferred can be cleaned up: on a live fixture an exactly reporting engine
      lets the cleanup succeed on the captured witnesses. */
  method CaptureThenClean(docker: Docker, receipt: Receipt, oldId: string, oldJob: string, oldVolume: string, restoreJob: string,
                          target: Target, targets: seq<Target>, image: string, binding: string) returns (ok: bool, rest: seq<Target>)
    requires docker.Valid()
    modifies docker`containers, docker`volumes
    ensures docker.Valid()
    ensures ok ==> !LiveContainer(docker.containers, oldId) && oldVolume !in docker.volumes
    ensures ok ==> !LiveContainer(docker.containers, receipt.newId) && receipt.restoreVolume !in docker.volumes
    ensures docker.accurate && TransferAllowed(receipt, oldId, oldJob, oldVolume, restoreJob, target, targets) ==>
            (FixtureLive(old(docker.containers), old(docker.volumes), receipt, oldId, oldJob, oldVolume, restoreJob, image, binding) ==> ok)
  {
    hide TransferAllowed, FixtureLive, OldSideKnown, NewSideOwn, OnlyWitnessedContainers, OnlyWitnessedVolumes, LiveContainer,
         OldIdentity, NewIdentity, WellFormedContainers, MountsLive;
    if FixtureLive(docker.containers, docker.volumes, receipt, oldId, oldJob, oldVolume, restoreJob, image, binding) {
      FixtureKnown(docker.containers, docker.volumes, receipt, oldId, oldJob, oldVolume, restoreJob, image, binding);
    }
    var moved: Option<(OldWitness, NewWitness, RestoreWitness)>;
    moved, rest := CaptureCustody(receipt, oldId, oldJob, oldVolume, restoreJob, target, targets);
    if moved.None? {
      return false, rest;
    }
    ok := CleanupRollbackFixture(docker, Some(moved.value.0), Some(moved.value.1), Some(moved.value.2), image, binding, false, false);
  }

  /** Lower-case hexadecimal digits. */
  lemma HexMeans(s: string, n: nat)
    ensures Hex(s, n) <==> |s| == n && forall i :: 0 <= i < |s| ==> s[i] in "0123456789abcdef"
  {
    assert forall c: char :: IsDigit(c) || 'a' <= c <= 'f' ==> c in "0123456789abcdef" by {
      forall c: char | IsDigit(c) || 'a' <= c <= 'f' ensures c in "0123456789abcdef" {
        var k := if IsDigit(c) then c as int - '0' as int else 10 + c as int - 'a' as int;
        assert "0123456789abcdef"[k] == c;
      }
    }
  }

  /** A transfer goes through only for ids, jobs and volumes of the form the product gives them, on a
      target the receipt and the caller agree on. */
  lemma TransferMeans(receipt: Receipt, oldId: string, oldJob: string, oldVolume: string, restoreJob: string,
                      target: Target, targets: seq<Target>)
    requires TransferAllowed(receipt, oldId, oldJob, oldVolume, restoreJob, target, targets)
    ensures Hex(oldId, 64) && Hex(receipt.newId, 64) && Hex(target.candidate, 64)
    ensures |oldJob| == |receipt.rollbackJob| == 36
    ensures forall c :: c in oldJob || c in receipt.rollbackJob ==> c == '-' || IsDigit(c) || 'a' <= c <= 'f'
    ensures "neoth_n8n_" <= oldVolume && Hex(oldVolume[10..], 32)
    ensures "neoth_n8n_" <= receipt.restoreVolume && Hex(receipt.restoreVolume[10..], 32)
    ensures receipt.retainedName.Some? && target in targets
    ensures target.job == restoreJob && target.volume == receipt.restoreVolume
  {
    assert |VOLUME_PREFIX| == 10;
  }

  /** The witnessed containers: the old one also has its retained name. */
  lemma WitnessChecksMean(row: ContainerRow, old': OldWitness, new': NewWitness, image: string, binding: string)
    ensures OldIdentity(row, old', image, binding) <==>
            RuntimeIdentity(row, old'.job, old'.volume, old'.id, image, binding) && row.name == "/" + old'.name
    ensures NewIdentity(row, new', image, binding) <==> RuntimeIdentity(row, new'.job, new'.volume, new'.id, image, binding)
  {
  }
}
