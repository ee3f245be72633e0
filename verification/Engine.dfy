/** The container engine as the n8n canaries see it: live containers by id, live volumes by name,
    and commands whose outcome may be unknown to the caller. A query may fail or answer
    "unproven" spuriously, but it never proves a live resource absent and never shows a row that
    is not live (packaging/n8n_bootstrap_canary.py:178-197). */
module Engine {
  import opened Outcomes
  import opened TextSearch

  datatype Mount = Mount(kind: string, name: string, destination: string, source: string, rw: bool)

  datatype ContainerRow = ContainerRow(
    id: string, name: string, image: string, labels: map<string, string>,
    networkMode: string, portBindings: set<string>, restartName: string, restartCount: int,
    activePorts: set<string>, mounts: seq<Mount>, tmpfs: map<string, set<string>>,
    entrypoint: Option<seq<string>>, command: Option<seq<string>>, running: bool)

  datatype VolumeRow = VolumeRow(name: string, labels: map<string, string>)

  datatype ImageConfig = ImageConfig(entrypoint: Option<seq<string>>, command: Option<seq<string>>)

  type Containers = map<string, ContainerRow>
  type Volumes = map<string, VolumeRow>

  datatype Answer = Proven | Unproven | Raised

  datatype Found = FoundContainer(container: ContainerRow) | FoundVolume(volume: VolumeRow) | NotShown

  /** A full container id. */
  predicate IsId(s: string) {
    Hex(s, 64)
  }

  predicate Named(row: ContainerRow, name: string) {
    row.name == "/" + name
  }

  /** Ids and names are kept apart: no container is named like an id. */
  predicate NamedLikeId(row: ContainerRow) {
    |row.name| > 0 && IsId(row.name[1..])
  }

  /** A container answers to its id and to its name. */
  predicate AnswersTo(row: ContainerRow, identifier: string) {
    row.id == identifier || Named(row, identifier)
  }

  ghost predicate LiveContainer(containers: Containers, identifier: string) {
    exists id :: id in containers && AnswersTo(containers[id], identifier)
  }

  ghost predicate WellFormedContainers(containers: Containers) {
    && (forall id :: id in containers ==> containers[id].id == id && IsId(id) && !NamedLikeId(containers[id]))
    && (forall a, b :: a in containers && b in containers && containers[a].name == containers[b].name ==> a == b)
  }

  ghost predicate WellFormedVolumes(volumes: Volumes) {
    forall v :: v in volumes ==> volumes[v].name == v
  }

  predicate Mounts(row: ContainerRow, volume: string) {
    exists m :: m in row.mounts && m.kind == "volume" && m.name == volume
  }

  /** Mounted volumes exist. */
  ghost predicate MountsLive(containers: Containers, volumes: Volumes) {
    forall id, v :: id in containers && Mounts(containers[id], v) ==> v in volumes
  }

  /** `later` is `earlier` after removals only. */
  ghost predicate OnlyRemovals<K, V>(earlier: map<K, V>, later: map<K, V>) {
    forall k :: k in later ==> k in earlier && earlier[k] == later[k]
  }

  lemma RemovedIdGone(live: Containers, id: string)
    requires WellFormedContainers(live)
    ensures id in live ==> !LiveContainer(live - {id}, id)
  {
    assert ("/" + id)[1..] == id;
  }

  class Docker {
    var containers: Containers
    var volumes: Volumes
    var issued: set<string> // every id handed out so far
    const images: map<string, ImageConfig>
    /** Every command reports exactly what it found or did. */
    const accurate: bool

    /** At least the absence queries answer exactly. */
    const provesAbsence: bool

    predicate Sure() {
      accurate || provesAbsence
    }

    ghost predicate Valid()
      reads this
    {
      && WellFormedContainers(containers) && WellFormedVolumes(volumes)
      && MountsLive(containers, volumes)
      && containers.Keys <= issued && forall id :: id in issued ==> IsId(id)
    }

    /** `exact_absent("container", …)`. */
    method ContainerAbsent(identifier: string) returns (answer: Answer)
      ensures answer == Proven ==> !LiveContainer(containers, identifier)
      ensures Sure() ==> answer == if LiveContainer(containers, identifier) then Unproven else Proven
    {
      var live := exists id :: id in containers && AnswersTo(containers[id], identifier);
      var spurious: bool, raised: bool := *, *;
      return if raised && !Sure() then Raised else if live || (spurious && !Sure()) then Unproven else Proven;
    }

    /** `exact_absent("volume", …)`. */
    method VolumeAbsent(name: string) returns (answer: Answer)
      ensures answer == Proven ==> name !in volumes
      ensures Sure() ==> answer == if name in volumes then Unproven else Proven
    {
      var spurious: bool, raised: bool := *, *;
      return if raised && !Sure() then Raised else if name in volumes || (spurious && !Sure()) then Unproven else Proven;
    }

    /** `docker inspect`: a container that answers to the identifier, else a volume of that name. */
    method Inspect(identifier: string) returns (found: Found)
      requires Valid()
      ensures found.FoundContainer? ==>
                && found.container.id in containers && containers[found.container.id] == found.container
                && AnswersTo(found.container, identifier)
                && (identifier in containers ==> found.container.id == identifier)
      ensures found.FoundVolume? ==> identifier in volumes && volumes[identifier] == found.volume
      ensures found.FoundVolume? ==> !LiveContainer(containers, identifier)
      ensures accurate && LiveContainer(containers, identifier) ==> found.FoundContainer?
      ensures accurate && !LiveContainer(containers, identifier) && identifier in volumes ==> found.FoundVolume?
    {
      var spurious: bool := *;
      if spurious && !accurate {
        return NotShown;
      }
      if identifier in containers {
        return FoundContainer(containers[identifier]);
      }
      if id :| id in containers && AnswersTo(containers[id], identifier) {
        return FoundContainer(containers[id]);
      }
      if identifier in volumes {
        return FoundVolume(volumes[identifier]);
      }
      return NotShown;
    }

    /** `docker inspect` of an image. */
    method InspectImage(image: string) returns (config: Option<ImageConfig>)
      ensures config.Some? ==> image in images && images[image] == config.value
      ensures accurate && image in images ==> config.Some?
    {
      var spurious: bool := *;
      return if image in images && (accurate || !spurious) then Some(images[image]) else None;
    }

    /** `docker create`: takes effect or not; what it reports need not tell which. A missing
        volume named by the mount is created without labels. The ghost parameter is what the
        caller has on record when it issues the command. */
    method CreateContainer(request: ContainerRow, volume: string, ghost onRecord: set<string>)
      returns (output: Option<string>)
      requires request.name in onRecord
      requires Valid() && !NamedLikeId(request) && forall v :: Mounts(request, v) ==> v == volume
      modifies this
      ensures Valid()
      ensures old(issued) <= issued
      ensures (containers == old(containers) && volumes == old(volumes)) ||
              exists id :: id !in old(issued) && Created(old(containers), containers, old(volumes), volumes, request, volume, id)
      ensures accurate && output.Some? ==> output.value !in old(issued) && output.value in issued
      ensures accurate && output.Some? ==>
              Created(old(containers), containers, old(volumes), volumes, request, volume, output.value)
      ensures accurate && output.None? ==> containers == old(containers) && volumes == old(volumes)
      ensures accurate && output.Some? ==> containers != old(containers)
    {
      var id: string, effect: bool, reported: bool, garbage: string := *, *, *, *;
      var taken := exists other :: other in containers && containers[other].name == request.name;
      if effect && IsId(id) && id !in issued && !taken {
        issued := issued + {id};
        containers := containers[id := request.(id := id)];
        if volume !in volumes {
          volumes := volumes[volume := VolumeRow(volume, map[])];
        }
        CreatedIsValid(old(containers), containers, old(volumes), volumes, request, volume, id);
        return if accurate then Some(id) else if reported then Some(garbage) else None;
      }
      return if reported && !accurate then Some(garbage) else None;
    }

    /** `docker volume create`. */
    method CreateVolume(name: string, labels: map<string, string>, ghost onRecord: seq<string>) returns (ok: bool)
      requires Valid() && name in onRecord
      modifies this`volumes
      ensures Valid()
      ensures volumes == old(volumes) ||
              (name !in old(volumes) && volumes == old(volumes)[name := VolumeRow(name, labels)])
      ensures accurate ==> (ok <==> name in volumes)
    {
      var effect: bool, reported: bool := *, *;
      if effect && name !in volumes {
        volumes := volumes[name := VolumeRow(name, labels)];
      }
      ok := if accurate then name in volumes else reported;
    }

    /** `docker start`: may set the running flag and touches nothing else. */
    method Start(id: string) returns (ok: bool)
      requires Valid()
      modifies this`containers
      ensures Valid()
      ensures containers == old(containers) ||
              (id in old(containers) && containers == old(containers)[id := old(containers)[id].(running := true)])
      ensures accurate ==> (ok <==> id in containers && containers[id].running)
    {
      var effect: bool, reported: bool := *, *;
      if effect && id in containers {
        containers := containers[id := containers[id].(running := true)];
      }
      ok := if accurate then id in containers && containers[id].running else reported;
    }

    /** `docker rm`: removes the container of this id, or nothing. */
    method RemoveContainer(id: string) returns (ok: bool)
      requires Valid()
      modifies this`containers
      ensures Valid()
      ensures containers == old(containers) || containers == old(containers) - {id}
      ensures accurate ==> ok && containers == old(containers) - {id}
    {
      var effect: bool := *;
      if accurate || effect {
        containers := containers - {id};
      }
      var reported: bool := *;
      ok := accurate || reported;
    }

    /** `docker volume rm`: refused while a container mounts the volume. */
    method RemoveVolume(name: string) returns (ok: bool)
      requires Valid()
      modifies this`volumes
      ensures Valid()
      ensures volumes == old(volumes) || volumes == old(volumes) - {name}
      ensures accurate && (forall id :: id in containers ==> !Mounts(containers[id], name)) ==>
              ok && volumes == old(volumes) - {name}
    {
      var used := exists id :: id in containers && Mounts(containers[id], name);
      var effect: bool := *;
      if !used && (accurate || effect) {
        volumes := volumes - {name};
      }
      var reported: bool := *;
      ok := !used && (accurate || reported);
    }
  }

  /** The effect of a creation under a fresh id and a free name. */
  ghost predicate Created(before: Containers, after: Containers, volumesBefore: Volumes, volumesAfter: Volumes,
                          request: ContainerRow, volume: string, id: string) {
    && IsId(id) && id !in before && after == before[id := request.(id := id)]
    && (forall other :: other in before ==> before[other].name != request.name)
    && volumesAfter == (if volume in volumesBefore then volumesBefore
                        else volumesBefore[volume := VolumeRow(volume, map[])])
  }

  lemma CreatedIsValid(before: Containers, after: Containers, volumesBefore: Volumes, volumesAfter: Volumes,
                       request: ContainerRow, volume: string, id: string)
    requires Created(before, after, volumesBefore, volumesAfter, request, volume, id)
    requires WellFormedContainers(before) && WellFormedVolumes(volumesBefore) && MountsLive(before, volumesBefore)
    requires !NamedLikeId(request) && forall v :: Mounts(request, v) ==> v == volume
    ensures WellFormedContainers(after) && WellFormedVolumes(volumesAfter) && MountsLive(after, volumesAfter)
  {
    forall other, v | other in after && Mounts(after[other], v) ensures v in volumesAfter {
      if other == id {
        assert Mounts(request, v);
      }
    }
  }
}
