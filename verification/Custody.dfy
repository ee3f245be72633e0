/** Custody of created resources (packaging/n8n_update_migration_canary.py:79-212): intent is
    recorded before an effect whose outcome may be unknown, reconciliation is by name, and only
    resources that pass the full identity check are removed. */
module Custody {
  import opened Outcomes
  import opened Engine
  import opened TextSearch

  datatype Phase = Seed | Target

  /** An entry of `pending`. */
  datatype Intent = Intent(name: string, image: string, volume: string, phase: Phase)

  /** An entry of `containers`. */
  datatype Record = Record(id: string, intent: Intent)

  type Labels = map<string, string>
  type Defaults = map<string, ImageConfig>

  const CANDIDATE_PREFIX := "w1601_n8n_"

  /** The hashed part of a candidate name. */
  predicate IsToken(s: string) {
    Hex(s, 16)
  }

  /** A volume name that is accepted is the prefix and sixteen lower-case hexadecimal digits. */
  lemma CandidateNameMeans(token: string)
    requires IsToken(token)
    ensures |CANDIDATE_PREFIX + token| == 26 && "w1601_n8n_" <= CANDIDATE_PREFIX + token
    ensures forall c :: c in token ==> '0' <= c <= '9' || 'a' <= c <= 'f'
  {
  }

  lemma CandidateNamesAreNotIds(token: string)
    ensures !IsId(CANDIDATE_PREFIX + token)
  {
    assert (CANDIDATE_PREFIX + token)[0] == 'w';
  }

  // ---- Identity ------------------------------------------------------------------------------

  function OwnershipLabels(run: string, attempt: string): Labels {
    map["io.neoth.w1601" := "owned", "io.neoth.w1601.run" := run, "io.neoth.w1601.attempt" := attempt]
  }

  function PhaseLabels(owner: Labels, phase: Phase): Labels {
    owner["io.neoth.w1601.phase" := if phase == Seed then "seed" else "target"]
  }

  const SEED_COMMAND := ["-e", "setInterval(() => {}, 2147483647)"]
  const TMPFS_OPTIONS := {"rw", "nosuid", "nodev", "noexec", "size=64m"}

  function VolumeMounts(mounts: seq<Mount>): (r: seq<Mount>)
    ensures forall m :: m in r <==> m in mounts && m.kind == "volume"
  {
    if mounts == [] then []
    else
      assert mounts == [mounts[0]] + mounts[1..];
      if mounts[0].kind == "volume" then [mounts[0]] + VolumeMounts(mounts[1..]) else VolumeMounts(mounts[1..])
  }

  /** Labels, network, ports and restart policy of a candidate. */
  predicate Isolated(row: ContainerRow, record: Record, owner: Labels) {
    && row.image == record.intent.image
    && (forall k :: k in PhaseLabels(owner, record.intent.phase) ==>
          k in row.labels && row.labels[k] == PhaseLabels(owner, record.intent.phase)[k])
    && row.networkMode == "none" && row.portBindings == {} && row.activePorts == {}
    && row.restartName == "no" && row.restartCount == 0
  }

  /** Exactly the recorded volume and the bounded scratch mount. */
  predicate MountedAsRecorded(row: ContainerRow, record: Record) {
    var volumes := VolumeMounts(row.mounts);
    && |volumes| == 1 && volumes[0].name == record.intent.volume
    && volumes[0].destination == "/home/node/.n8n" && volumes[0].source != "" && volumes[0].rw
    && (forall m :: m in row.mounts && m.kind != "volume" ==> m.kind == "tmpfs" && m.destination == "/tmp")
    && row.tmpfs.Keys == {"/tmp"} && row.tmpfs["/tmp"] == TMPFS_OPTIONS
  }

  predicate CommandAsRecorded(row: ContainerRow, record: Record, defaults: Defaults) {
    match record.intent.phase
    case Seed => row.entrypoint == Some(["node"]) && row.command == Some(SEED_COMMAND)
    case Target =>
      record.intent.image in defaults && ImageConfig(row.entrypoint, row.command) == defaults[record.intent.image]
  }

  /** Everything `validate` demands of a row, apart from the running flag. */
  predicate Identity(row: ContainerRow, record: Record, defaults: Defaults, owner: Labels) {
    && row.id == record.id && Named(row, record.intent.name)
    && Isolated(row, record, owner) && MountedAsRecorded(row, record) && CommandAsRecorded(row, record, defaults)
  }

  /** What a container that passes the check is. */
  lemma IdentityMeans(row: ContainerRow, record: Record, defaults: Defaults, owner: Labels)
    requires Identity(row, record, defaults, owner)
    ensures row.id == record.id && row.name == "/" + record.intent.name && row.image == record.intent.image
    ensures row.networkMode == "none" && row.portBindings == {} && row.activePorts == {}
    ensures row.restartName == "no" && row.restartCount == 0
    ensures forall k :: k in owner && k != "io.neoth.w1601.phase" ==> k in row.labels && row.labels[k] == owner[k]
    ensures "io.neoth.w1601.phase" in row.labels
    ensures row.labels["io.neoth.w1601.phase"] == if record.intent.phase == Seed then "seed" else "target"
    ensures exists m :: m in row.mounts && m.kind == "volume"
    ensures forall m :: m in row.mounts && m.kind == "volume" ==>
              m.name == record.intent.volume && m.destination == "/home/node/.n8n" && m.source != "" && m.rw
    ensures forall m :: m in row.mounts && m.kind != "volume" ==> m.kind == "tmpfs" && m.destination == "/tmp"
    ensures row.tmpfs == map["/tmp" := {"rw", "nosuid", "nodev", "noexec", "size=64m"}]
    ensures record.intent.phase == Seed ==>
              row.entrypoint == Some(["node"]) && row.command == Some(["-e", "setInterval(() => {}, 2147483647)"])
    ensures record.intent.phase == Target ==>
              record.intent.image in defaults && row.entrypoint == defaults[record.intent.image].entrypoint &&
              row.command == defaults[record.intent.image].command
  {
    var volumes := VolumeMounts(row.mounts);
    assert volumes[0] in volumes;
    assert forall m :: m in volumes ==> m == volumes[0];
    var labels := PhaseLabels(owner, record.intent.phase);
    assert "io.neoth.w1601.phase" in labels;
    assert forall k :: k in owner && k != "io.neoth.w1601.phase" ==> k in labels && labels[k] == owner[k];
    assert row.tmpfs.Keys == {"/tmp"};
  }

  /** The labels every resource of a run carries. */
  lemma OwnershipMeans(run: string, attempt: string)
    ensures OwnershipLabels(run, attempt).Keys == {"io.neoth.w1601", "io.neoth.w1601.run", "io.neoth.w1601.attempt"}
    ensures OwnershipLabels(run, attempt)["io.neoth.w1601"] == "owned"
    ensures OwnershipLabels(run, attempt)["io.neoth.w1601.run"] == run
    ensures OwnershipLabels(run, attempt)["io.neoth.w1601.attempt"] == attempt
  {
    assert |"io.neoth.w1601"| == 14 && |"io.neoth.w1601.run"| == 18 && |"io.neoth.w1601.attempt"| == 22;
  }

  predicate VolumeIdentity(row: VolumeRow, name: string, owner: Labels) {
    row.name == name && row.labels == owner
  }

  /** What `create_candidate` asks the engine for. */
  function RequestedRow(intent: Intent, config: ImageConfig, owner: Labels): ContainerRow {
    ContainerRow(
      "", "/" + intent.name, intent.image, PhaseLabels(owner, intent.phase), "none", {}, "no", 0, {},
      [Mount("volume", intent.volume, "/home/node/.n8n", "volumes/" + intent.volume, true)],
      map["/tmp" := TMPFS_OPTIONS],
      if intent.phase == Seed then Some(["node"]) else config.entrypoint,
      if intent.phase == Seed then Some(SEED_COMMAND) else config.command,
      false)
  }

  lemma RequestedName(intent: Intent, config: ImageConfig, owner: Labels)
    requires !IsId(intent.name)
    ensures RequestedRow(intent, config, owner).name == "/" + intent.name
    ensures !NamedLikeId(RequestedRow(intent, config, owner))
  {
    assert ("/" + intent.name)[1..] == intent.name;
  }

  /** A container created as requested passes the identity check of its intent. */
  lemma RequestedIdentity(intent: Intent, config: ImageConfig, owner: Labels, defaults: Defaults, id: string)
    requires intent.image in defaults && defaults[intent.image] == config
    ensures Identity(RequestedRow(intent, config, owner).(id := id), Record(id, intent), defaults, owner)
    ensures forall v :: Mounts(RequestedRow(intent, config, owner), v) ==> v == intent.volume
  {
    var mount := Mount("volume", intent.volume, "/home/node/.n8n", "volumes/" + intent.volume, true);
    assert VolumeMounts([mount]) == [mount];
  }

  lemma IdentityKept(row: ContainerRow, record: Record, defaults: Defaults, more: Defaults, owner: Labels, running: bool)
    requires Identity(row, record, defaults, owner)
    requires forall k :: k in defaults ==> k in more && more[k] == defaults[k]
    ensures Identity(row.(running := running), record, more, owner)
    ensures Identity(row, record, more, owner)
  {
  }

  // ---- What the run holds --------------------------------------------------------------------

  ghost predicate Keeps<K, V>(base: map<K, V>, live: map<K, V>) {
    forall k :: k in base ==> k in live && live[k] == base[k]
  }

  /** A live container is the exact realisation of some recorded intent. */
  ghost predicate CoveredBy(row: ContainerRow, pending: seq<Intent>, defaults: Defaults, owner: Labels) {
    exists p :: p in pending && Identity(row, Record(row.id, p), defaults, owner)
  }

  /** Every container beyond those that predate the run is covered by an intent. */
  ghost predicate Covered(base: Containers, live: Containers, pending: seq<Intent>, defaults: Defaults, owner: Labels) {
    forall id :: id in live ==> id in base || CoveredBy(live[id], pending, defaults, owner)
  }

  /** No container that predates the run answers to a pending name. */
  ghost predicate FreshName(base: Containers, name: string) {
    !IsId(name) && !LiveContainer(base, name)
  }

  ghost predicate PendingFresh(base: Containers, pending: seq<Intent>) {
    forall p :: p in pending ==> FreshName(base, p.name)
  }

  ghost predicate VolumesCovered(base: Volumes, live: Volumes, volumes: seq<string>) {
    && (forall v :: v in live ==> v in base || v in volumes)
    && (forall v :: v in volumes ==> v !in base)
  }

  /** A container that passes the check for a pending name does not predate the run. */
  lemma IdentifiedIsOurs(base: Containers, live: Containers, pending: seq<Intent>, record: Record,
                         defaults: Defaults, owner: Labels)
    requires Keeps(base, live) && PendingFresh(base, pending) && record.intent in pending
    requires record.id in live && Identity(live[record.id], record, defaults, owner)
    ensures record.id !in base
  {
    assert FreshName(base, record.intent.name);
  }

  /** The containers of the run: the old world is intact, the rest is covered, names are fresh. */
  ghost predicate Secured(base: Containers, live: Containers, pending: seq<Intent>, defaults: Defaults, owner: Labels) {
    Keeps(base, live) && Covered(base, live, pending, defaults, owner) && PendingFresh(base, pending)
  }

  ghost predicate SecuredVolumes(base: Volumes, live: Volumes, names: seq<string>) {
    Keeps(base, live) && VolumesCovered(base, live, names)
  }

  ghost predicate KnownImages(defaults: Defaults, images: map<string, ImageConfig>) {
    forall k :: k in defaults ==> k in images && images[k] == defaults[k]
  }

  /** Each record is of an id that was handed out and, while live, of the container it describes. */
  ghost predicate TrueRecords(live: Containers, issued: set<string>, records: seq<Record>, defaults: Defaults, owner: Labels) {
    forall r :: r in records ==> r.id in issued && (r.id in live ==> Identity(live[r.id], r, defaults, owner))
  }

  ghost predicate TrueVolumes(live: Volumes, names: seq<string>, owner: Labels) {
    forall v :: v in names && v in live ==> VolumeIdentity(live[v], v, owner)
  }

  lemma CoverMore(base: Containers, live: Containers, pending: seq<Intent>, defaults: Defaults, owner: Labels,
                  intent: Intent, config: ImageConfig)
    requires Covered(base, live, pending, defaults, owner)
    requires intent.image in defaults ==> defaults[intent.image] == config
    ensures Covered(base, live, pending + [intent], defaults[intent.image := config], owner)
  {
    hide Identity;
    var more := defaults[intent.image := config];
    forall id | id in live && id !in base ensures CoveredBy(live[id], pending + [intent], more, owner) {
      assert CoveredBy(live[id], pending, defaults, owner);
      var p :| p in pending && Identity(live[id], Record(live[id].id, p), defaults, owner);
      IdentityKept(live[id], Record(live[id].id, p), defaults, more, owner, true);
      assert p in pending + [intent];
    }
  }

  lemma FreshMore(base: Containers, live: Containers, pending: seq<Intent>, intent: Intent)
    requires PendingFresh(base, pending) && Keeps(base, live)
    requires !IsId(intent.name) && !LiveContainer(live, intent.name)
    ensures PendingFresh(base, pending + [intent])
  {
    hide IsId, AnswersTo;
    assert FreshName(base, intent.name);
  }

  lemma CoverCreated(base: Containers, live: Containers, after: Containers, pending: seq<Intent>, defaults: Defaults,
                     owner: Labels, intent: Intent, config: ImageConfig, id: string)
    requires Keeps(base, live) && Covered(base, live, pending, defaults, owner) && intent in pending
    requires intent.image in defaults && defaults[intent.image] == config
    requires id !in live && after == live[id := RequestedRow(intent, config, owner).(id := id)]
    ensures Keeps(base, after) && Covered(base, after, pending, defaults, owner)
    ensures Identity(after[id], Record(id, intent), defaults, owner)
  {
    hide Identity, RequestedRow;
    RequestedIdentity(intent, config, owner, defaults, id);
    assert CoveredBy(after[id], pending, defaults, owner);
  }

  lemma CoverStarted(base: Containers, live: Containers, pending: seq<Intent>, defaults: Defaults, owner: Labels, id: string)
    requires Keeps(base, live) && Covered(base, live, pending, defaults, owner) && id in live && id !in base
    ensures var after := live[id := live[id].(running := true)];
            Keeps(base, after) && Covered(base, after, pending, defaults, owner)
  {
    hide Identity;
    assert CoveredBy(live[id], pending, defaults, owner);
    var p :| p in pending && Identity(live[id], Record(live[id].id, p), defaults, owner);
    IdentityKept(live[id], Record(live[id].id, p), defaults, defaults, owner, true);
    assert CoveredBy(live[id].(running := true), pending, defaults, owner);
  }

  /** Recording an intent for a free name before any effect. */
  lemma IntentSecured(base: Containers, live: Containers, issued: set<string>, pending: seq<Intent>, records: seq<Record>,
                      defaults: Defaults, images: map<string, ImageConfig>, owner: Labels,
                      intent: Intent, config: ImageConfig)
    requires Secured(base, live, pending, defaults, owner) && KnownImages(defaults, images)
    requires !IsId(intent.name) && !LiveContainer(live, intent.name)
    requires intent.image in images && images[intent.image] == config
    ensures var more := defaults[intent.image := config];
            && Secured(base, live, pending + [intent], more, owner) && KnownImages(more, images)
            && (TrueRecords(live, issued, records, defaults, owner) ==> TrueRecords(live, issued, records, more, owner))
  {
    hide Identity, IsId, Covered, LiveContainer;
    CoverMore(base, live, pending, defaults, owner, intent, config);
    FreshMore(base, live, pending, intent);
    var more := defaults[intent.image := config];
    if TrueRecords(live, issued, records, defaults, owner) {
      forall r | r in records && r.id in live ensures Identity(live[r.id], r, more, owner) {
        IdentityKept(live[r.id], r, defaults, more, owner, true);
      }
    }
  }

  /** A creation that took effect keeps everything on record. */
  lemma CreationSecured(base: Containers, live: Containers, after: Containers, issued: set<string>, later: set<string>,
                        pending: seq<Intent>, records: seq<Record>, defaults: Defaults, owner: Labels,
                        intent: Intent, config: ImageConfig, id: string)
    requires Secured(base, live, pending, defaults, owner) && intent in pending
    requires intent.image in defaults && defaults[intent.image] == config
    requires id !in live && after == live[id := RequestedRow(intent, config, owner).(id := id)]
    requires id !in issued && issued <= later
    ensures Secured(base, after, pending, defaults, owner)
    ensures Identity(after[id], Record(id, intent), defaults, owner)
    ensures TrueRecords(live, issued, records, defaults, owner) ==> TrueRecords(after, later, records, defaults, owner)
  {
    hide Identity, Covered, RequestedRow, PendingFresh;
    CoverCreated(base, live, after, pending, defaults, owner, intent, config, id);
  }

  lemma RecordMore(live: Containers, issued: set<string>, records: seq<Record>, defaults: Defaults, owner: Labels, record: Record)
    ensures TrueRecords(live, issued, records, defaults, owner) && record.id in issued &&
            record.id in live && Identity(live[record.id], record, defaults, owner) ==>
            TrueRecords(live, issued, records + [record], defaults, owner)
  {
  }

  lemma SecuredIsOurs(base: Containers, live: Containers, pending: seq<Intent>, record: Record,
                      defaults: Defaults, owner: Labels)
    requires Secured(base, live, pending, defaults, owner) && record.intent in pending
    requires record.id in live && Identity(live[record.id], record, defaults, owner)
    ensures record.id !in base
  {
    IdentifiedIsOurs(base, live, pending, record, defaults, owner);
  }

  lemma VolumeSecured(base: Volumes, live: Volumes, after: Volumes, names: seq<string>, name: string, labels: Labels, owner: Labels)
    requires SecuredVolumes(base, live, names) && name in names && name !in live
    requires after == live[name := VolumeRow(name, labels)]
    ensures SecuredVolumes(base, after, names)
    ensures TrueVolumes(live, names, owner) && labels == owner ==> TrueVolumes(after, names, owner)
  {
  }

  /** A volume that a mount creates is covered exactly if it was recorded before. */
  lemma MountCreated(base: Volumes, live: Volumes, after: Volumes, names: seq<string>, name: string, owner: Labels)
    requires SecuredVolumes(base, live, names) && name !in live && after == live[name := VolumeRow(name, map[])]
    ensures SecuredVolumes(base, after, names) <==> name in names
    ensures TrueVolumes(live, names, owner) && name !in names ==> TrueVolumes(after, names, owner)
  {
    if name in names {
      VolumeSecured(base, live, after, names, name, map[], owner);
    } else {
      assert name in after && name !in base;
    }
  }

  // ---- Cleanup on values ---------------------------------------------------------------------

  /** Every pending name, recorded id and recorded volume is gone. */
  ghost predicate AllGone(live: Containers, volumes: Volumes, pending: seq<Intent>, records: seq<Record>, names: seq<string>) {
    && (forall p :: p in pending ==> !LiveContainer(live, p.name))
    && (forall r :: r in records ==> !LiveContainer(live, r.id))
    && (forall v :: v in names ==> v !in volumes)
  }

  /** A pending name is free, or its holder is recorded for removal. */
  ghost predicate Reconciled(live: Containers, records: seq<Record>, name: string) {
    LiveContainer(live, name) ==> exists r :: r in records && r.id in live && Named(live[r.id], name)
  }

  lemma ReconciledThenGone(live: Containers, later: Containers, records: seq<Record>, name: string)
    requires WellFormedContainers(live) && OnlyRemovals(live, later) && !IsId(name)
    requires Reconciled(live, records, name)
    requires forall r :: r in records ==> !LiveContainer(later, r.id)
    ensures !LiveContainer(later, name)
  {
    forall id | id in later ensures !AnswersTo(later[id], name) {
      assert LiveContainer(live, name) <== AnswersTo(live[id], name);
      assert AnswersTo(later[id], id) && LiveContainer(later, id);
    }
  }

  /** Each container missing from `later` passed the check for one of the records. */
  ghost predicate RemovedOnlyIdentified(live: Containers, later: Containers, records: seq<Record>,
                                        defaults: Defaults, owner: Labels) {
    && OnlyRemovals(live, later)
    && forall id :: id in live && id !in later ==>
         exists r :: r in records && r.id == id && Identity(live[id], r, defaults, owner)
  }

  ghost predicate RemovedOnlyOwned(live: Volumes, later: Volumes, names: seq<string>, owner: Labels) {
    && OnlyRemovals(live, later)
    && forall v :: v in live && v !in later ==> v in names && VolumeIdentity(live[v], v, owner)
  }

  /** What removals of volumes leave: everything that is not recorded under its name with exactly the
      ownership labels. */
  lemma OwnedMeans(live: Volumes, later: Volumes, names: seq<string>, owner: Labels)
    requires RemovedOnlyOwned(live, later, names, owner)
    ensures forall v :: v in later ==> v in live && later[v] == live[v]
    ensures forall v :: v in live && v !in later ==> v in names && live[v].name == v && live[v].labels == owner
  {
  }

  /** A live holder of the intent's name passes the check, so reconciliation can record it. */
  ghost predicate Identifiable(live: Containers, intent: Intent, defaults: Defaults, owner: Labels) {
    forall id :: id in live && AnswersTo(live[id], intent.name) ==> Identity(live[id], Record(id, intent), defaults, owner)
  }

  ghost predicate Removable(live: Containers, record: Record, defaults: Defaults, owner: Labels) {
    LiveContainer(live, record.id) ==> record.id in live && Identity(live[record.id], record, defaults, owner)
  }

  /** The volume is gone, or nothing stands in the way of removing it. */
  ghost predicate FreeVolume(live: Containers, volumes: Volumes, name: string, owner: Labels) {
    name in volumes ==>
      && VolumeIdentity(volumes[name], name, owner) && !LiveContainer(live, name)
      && forall id :: id in live ==> !Mounts(live[id], name)
  }

  /** An id in use is answered to by its own container only. */
  lemma LiveById(live: Containers, id: string)
    requires WellFormedContainers(live) && IsId(id)
    ensures LiveContainer(live, id) <==> id in live
  {
    assert ("/" + id)[1..] == id;
    if id in live {
      assert AnswersTo(live[id], id);
    }
  }

  lemma NothingRemoved(live: Containers, records: seq<Record>, defaults: Defaults, owner: Labels)
    ensures RemovedOnlyIdentified(live, live, records, defaults, owner)
  {
  }

  lemma RemovedAreRemovals(live: Containers, later: Containers, records: seq<Record>, defaults: Defaults, owner: Labels)
    requires RemovedOnlyIdentified(live, later, records, defaults, owner)
    ensures OnlyRemovals(live, later)
  {
  }

  lemma RemovalsCompose(first: Containers, before: Containers, after: Containers, records: seq<Record>,
                        record: Record, defaults: Defaults, owner: Labels)
    requires RemovedOnlyIdentified(first, before, records, defaults, owner) && record in records
    requires RemovedOnlyIdentified(before, after, [record], defaults, owner)
    ensures RemovedOnlyIdentified(first, after, records, defaults, owner)
    ensures forall identifier :: LiveContainer(after, identifier) ==> LiveContainer(before, identifier)
  {
    hide Identity, AnswersTo;
  }

  lemma RemovableStays(first: Containers, before: Containers, records: seq<Record>, record: Record,
                       defaults: Defaults, owner: Labels)
    requires WellFormedContainers(first) && WellFormedContainers(before)
    requires RemovedOnlyIdentified(first, before, records, defaults, owner)
    ensures Removable(first, record, defaults, owner) ==> Removable(before, record, defaults, owner)
  {
    hide Identity;
    if record.id in first {
      LiveById(first, record.id);
      LiveById(before, record.id);
    }
  }

  ghost function RecordedNames(pending: seq<Intent>): set<string> {
    set p | p in pending :: "/" + p.name
  }

  /** Every live resource on record passes its check, and a recorded volume is used only by
      containers that hold a pending name. */
  ghost predicate Cleanable(live: Containers, volumes: Volumes, pending: seq<Intent>, records: seq<Record>,
                            names: seq<string>, defaults: Defaults, owner: Labels) {
    && (forall p :: p in pending ==> Identifiable(live, p, defaults, owner))
    && (forall r :: r in records ==> Removable(live, r, defaults, owner))
    && (forall v :: v in names ==> OwnedVolume(live, volumes, v, pending, owner))
  }

  ghost predicate OwnedVolume(live: Containers, volumes: Volumes, v: string, pending: seq<Intent>, owner: Labels) {
    v in volumes ==>
      && VolumeIdentity(volumes[v], v, owner)
      && forall id :: id in live && (Mounts(live[id], v) || AnswersTo(live[id], v)) ==>
           exists p :: p in pending && Named(live[id], p.name)
  }

  lemma CleanableParts(live: Containers, volumes: Volumes, pending: seq<Intent>, records: seq<Record>,
                       names: seq<string>, defaults: Defaults, owner: Labels)
    ensures Cleanable(live, volumes, pending, records, names, defaults, owner) ==>
              && (forall p :: p in pending ==> Identifiable(live, p, defaults, owner))
              && (forall r :: r in records ==> Removable(live, r, defaults, owner))
  {
  }

  lemma VolumesFreed(live: Containers, later: Containers, volumes: Volumes, pending: seq<Intent>, records: seq<Record>,
                     names: seq<string>, defaults: Defaults, owner: Labels)
    requires OnlyRemovals(live, later)
    requires forall p :: p in pending ==> !LiveContainer(later, p.name)
    ensures Cleanable(live, volumes, pending, records, names, defaults, owner) ==>
            forall v :: v in names ==> FreeVolume(later, volumes, v, owner)
  {
    hide Identity, Removable, Identifiable, Mounts;
    if Cleanable(live, volumes, pending, records, names, defaults, owner) {
      forall v | v in names ensures FreeVolume(later, volumes, v, owner) {
        assert OwnedVolume(live, volumes, v, pending, owner);
        forall id | id in later && v in volumes ensures !Mounts(later[id], v) && !AnswersTo(later[id], v) {
          assert forall p :: p in pending && Named(later[id], p.name) ==> AnswersTo(later[id], p.name);
        }
      }
    }
  }

  /** The `Custody` object together with the engine it commands. */
  class Ledger {
    const docker: Docker
    const owner: Labels
    var containers: seq<Record>
    var volumes: seq<string>
    var pending: seq<Intent>
    var defaults: Defaults

    constructor (docker: Docker, run: string, attempt: string)
      ensures this.docker == docker && owner == OwnershipLabels(run, attempt)
      ensures containers == [] && volumes == [] && pending == [] && defaults == map[]
    {
      this.docker, owner := docker, OwnershipLabels(run, attempt);
      containers, volumes, pending, defaults := [], [], [], map[];
    }

    /** The record's container is live and is what the record says. */
    ghost predicate PassesCheck(record: Record)
      reads this, docker
    {
      record.id in docker.containers && Identity(docker.containers[record.id], record, defaults, owner)
    }

    /** `validate`: true only for a live row that passes every check. */
    method Validate(record: Record, running: Option<bool>) returns (ok: bool)
      requires docker.Valid()
      ensures ok ==> PassesCheck(record)
      ensures ok && running.Some? ==> docker.containers[record.id].running == running.value
      ensures docker.accurate && record.id in docker.containers && Identity(docker.containers[record.id], record, defaults, owner) ==>
              (ok <==> running.None? || docker.containers[record.id].running == running.value)
    {
      hide Isolated, MountedAsRecorded, CommandAsRecorded;
      assert record.id in docker.containers ==>
        AnswersTo(docker.containers[record.id], record.id) && LiveContainer(docker.containers, record.id);
      var found := docker.Inspect(record.id);
      if found.FoundContainer? {
        var row := found.container;
        return Identity(row, record, defaults, owner) && (running.None? || row.running == running.value);
      }
      return false;
    }

    /** `validate_volume`. */
    method ValidateVolume(name: string) returns (ok: bool)
      requires docker.Valid()
      ensures ok ==> name in docker.volumes && VolumeIdentity(docker.volumes[name], name, owner)
      ensures ok ==> !LiveContainer(docker.containers, name)
      ensures docker.accurate && !LiveContainer(docker.containers, name) && name in docker.volumes ==>
              (VolumeIdentity(docker.volumes[name], name, owner) ==> ok)
    {
      var found := docker.Inspect(name);
      return found.FoundVolume? && VolumeIdentity(found.volume, name, owner);
    }

    /** One iteration of the reconciliation loop: the `try` block for one pending intent. */
    method ReconcileOne(intent: Intent) returns (ok: bool)
      requires docker.Valid() && intent in pending
      modifies this`containers
      ensures old(containers) <= containers
      ensures forall r :: r in containers && r !in old(containers) ==>
                r.intent == intent && PassesCheck(r)
      ensures ok ==> Reconciled(docker.containers, containers, intent.name)
      ensures ok ==> Identifiable(docker.containers, intent, defaults, owner)
      ensures docker.accurate && Identifiable(docker.containers, intent, defaults, owner) ==> ok
      ensures docker.Sure() && !LiveContainer(docker.containers, intent.name) ==> ok && containers == old(containers)
    {
      hide Isolated, MountedAsRecorded, CommandAsRecorded;
      var answer := docker.ContainerAbsent(intent.name);
      if answer != Unproven {
        return answer == Proven;
      }
      var found := docker.Inspect(intent.name);
      if !found.FoundContainer? || !IsId(found.container.id) {
        return false;
      }
      var record := Record(found.container.id, intent);
      ok := Validate(record, None);
      if ok && record !in containers {
        containers := containers + [record];
      }
    }

    /** First loop of `cleanup`. */
    method ReconcilePending() returns (ok: bool)
      requires docker.Valid()
      modifies this`containers
      ensures old(containers) <= containers
      ensures forall r :: r in containers && r !in old(containers) ==>
                r.intent in pending && PassesCheck(r)
      ensures ok ==> forall p :: p in pending ==> Reconciled(docker.containers, containers, p.name)
      ensures ok ==> forall p :: p in pending ==> Identifiable(docker.containers, p, defaults, owner)
      ensures docker.accurate && (forall p :: p in pending ==> Identifiable(docker.containers, p, defaults, owner)) ==> ok
      ensures docker.Sure() && (forall p :: p in pending ==> !LiveContainer(docker.containers, p.name)) ==>
              ok && containers == old(containers)
    {
      hide Identity, LiveContainer, Identifiable;
      ok := true;
      for i := 0 to |pending|
        invariant old(containers) <= containers
        invariant forall r :: r in containers && r !in old(containers) ==>
                    r.intent in pending && PassesCheck(r)
        invariant ok ==> forall j :: 0 <= j < i ==> Reconciled(docker.containers, containers, pending[j].name)
        invariant ok ==> forall j :: 0 <= j < i ==> Identifiable(docker.containers, pending[j], defaults, owner)
        invariant docker.accurate && (forall p :: p in pending ==> Identifiable(docker.containers, p, defaults, owner)) ==> ok
        invariant docker.Sure() && (forall p :: p in pending ==> !LiveContainer(docker.containers, p.name)) ==>
                  ok && containers == old(containers)
      {
        var done := ReconcileOne(pending[i]);
        ok := ok && done;
      }
    }

    /** One iteration of the container removal loop. */
    method RemoveOne(record: Record) returns (ok: bool)
      requires docker.Valid() && record in containers
      modifies docker`containers
      ensures docker.Valid()
      ensures RemovedOnlyIdentified(old(docker.containers), docker.containers, [record], defaults, owner)
      ensures ok ==> !LiveContainer(docker.containers, record.id)
      ensures docker.accurate && Removable(old(docker.containers), record, defaults, owner) ==> ok
      ensures docker.Sure() && !LiveContainer(old(docker.containers), record.id) ==>
              ok && docker.containers == old(docker.containers)
    {
      hide Identity, IsId, NamedLikeId;
      assert record in [record];
      RemovedIdGone(docker.containers, record.id);
      var answer := docker.ContainerAbsent(record.id);
      if answer == Raised {
        return false;
      }
      if answer == Unproven {
        var valid := Validate(record, None);
        if !valid {
          return false;
        }
        var removed := docker.RemoveContainer(record.id);
        if !removed {
          return false;
        }
      }
      answer := docker.ContainerAbsent(record.id);
      ok := answer == Proven;
    }

    /** Second loop of `cleanup`, newest record first. */
    method RemoveRecorded() returns (ok: bool)
      requires docker.Valid()
      modifies docker`containers
      ensures docker.Valid()
      ensures RemovedOnlyIdentified(old(docker.containers), docker.containers, containers, defaults, owner)
      ensures ok ==> forall r :: r in containers ==> !LiveContainer(docker.containers, r.id)
      ensures docker.accurate && (forall r :: r in containers ==> Removable(old(docker.containers), r, defaults, owner)) ==> ok
      ensures docker.Sure() && (forall r :: r in containers ==> !LiveContainer(old(docker.containers), r.id)) ==>
              ok && docker.containers == old(docker.containers)
    {
      hide Identity, LiveContainer, Removable, RemovedOnlyIdentified;
      ok := true;
      ghost var first := docker.containers;
      NothingRemoved(first, containers, defaults, owner);
      var i := |containers|;
      while i > 0
        invariant 0 <= i <= |containers|
        invariant docker.Valid()
        invariant RemovedOnlyIdentified(first, docker.containers, containers, defaults, owner)
        invariant ok ==> forall j :: i <= j < |containers| ==> !LiveContainer(docker.containers, containers[j].id)
        invariant docker.accurate && (forall r :: r in containers ==> Removable(first, r, defaults, owner)) ==> ok
        invariant docker.Sure() && (forall r :: r in containers ==> !LiveContainer(first, r.id)) ==>
                  ok && docker.containers == first
      {
        i := i - 1;
        ghost var before := docker.containers;
        RemovableStays(first, before, containers, containers[i], defaults, owner);
        var done := RemoveOne(containers[i]);
        ok := ok && done;
        RemovalsCompose(first, before, docker.containers, containers, containers[i], defaults, owner);
      }
    }

    /** One iteration of the volume removal loop. */
    method RemoveOneVolume(name: string) returns (ok: bool)
      requires docker.Valid() && name in volumes
      modifies docker`volumes
      ensures docker.Valid()
      ensures RemovedOnlyOwned(old(docker.volumes), docker.volumes, volumes, owner)
      ensures ok ==> name !in docker.volumes
      ensures docker.volumes != old(docker.volumes) ==>
              docker.volumes == old(docker.volumes) - {name} && !LiveContainer(docker.containers, name)
      ensures docker.Sure() && name !in old(docker.volumes) ==> ok && docker.volumes == old(docker.volumes)
      ensures docker.accurate && FreeVolume(docker.containers, old(docker.volumes), name, owner) ==> ok
    {
      var answer := docker.VolumeAbsent(name);
      if answer == Raised {
        return false;
      }
      if answer == Unproven {
        var valid := ValidateVolume(name);
        if !valid {
          return false;
        }
        var removed := docker.RemoveVolume(name);
        if !removed {
          return false;
        }
      }
      answer := docker.VolumeAbsent(name);
      ok := answer == Proven;
    }

    /** Third loop of `cleanup`. */
    method RemoveVolumes() returns (ok: bool)
      requires docker.Valid()
      modifies docker`volumes
      ensures docker.Valid()
      ensures RemovedOnlyOwned(old(docker.volumes), docker.volumes, volumes, owner)
      ensures ok ==> forall v :: v in volumes ==> v !in docker.volumes
      ensures forall v :: v in old(docker.volumes) && v !in docker.volumes ==> !LiveContainer(docker.containers, v)
      ensures docker.Sure() && (forall v :: v in volumes ==> v !in old(docker.volumes)) ==>
              ok && docker.volumes == old(docker.volumes)
      ensures docker.accurate && (forall v :: v in volumes ==> FreeVolume(docker.containers, old(docker.volumes), v, owner)) ==> ok
    {
      hide LiveContainer;
      ok := true;
      ghost var first := docker.volumes;
      var i := |volumes|;
      while i > 0
        invariant 0 <= i <= |volumes|
        invariant docker.Valid()
        invariant RemovedOnlyOwned(first, docker.volumes, volumes, owner)
        invariant ok ==> forall j :: i <= j < |volumes| ==> volumes[j] !in docker.volumes
        invariant forall v :: v in first && v !in docker.volumes ==> !LiveContainer(docker.containers, v)
        invariant docker.Sure() && (forall v :: v in volumes ==> v !in first) ==> ok && docker.volumes == first
        invariant docker.accurate && (forall v :: v in volumes ==> FreeVolume(docker.containers, first, v, owner)) ==> ok
      {
        i := i - 1;
        var done := RemoveOneVolume(volumes[i]);
        ok := ok && done;
      }
    }

    lemma PassesIsRemovable(r: Record)
      requires PassesCheck(r)
      ensures Removable(docker.containers, r, defaults, owner)
      ensures r.id in docker.containers && Identity(docker.containers[r.id], r, defaults, owner)
    {
    }

    /** `cleanup`. */
    method Cleanup() returns (ok: bool)
      requires docker.Valid() && forall p :: p in pending ==> !IsId(p.name)
      modifies this`containers, docker`containers, docker`volumes
      ensures docker.Valid()
      // intents and newly found holders only
      ensures old(containers) <= containers
      ensures forall r :: r in containers && r !in old(containers) ==>
                r.intent in pending && r.id in old(docker.containers) && Identity(old(docker.containers)[r.id], r, defaults, owner)
      // success proves everything recorded gone
      ensures ok ==> AllGone(docker.containers, docker.volumes, pending, containers, volumes)
      // success needs every holder of a pending name identified and no container named like a live volume
      ensures ok ==> forall p :: p in pending ==> Identifiable(old(docker.containers), p, defaults, owner)
      ensures ok ==> forall v :: v in volumes && v in old(docker.volumes) ==> !LiveContainer(docker.containers, v)
      // whatever the outcome, only identified resources went, and the rest is untouched
      ensures RemovedOnlyIdentified(old(docker.containers), docker.containers, containers, defaults, owner)
      ensures RemovedOnlyOwned(old(docker.volumes), docker.volumes, volumes, owner)
      // an engine that reports exactly lets it succeed on everything it can identify
      ensures docker.accurate ==>
              (Cleanable(old(docker.containers), old(docker.volumes), pending, old(containers), volumes, defaults, owner)
               ==> ok)
      // a cleanup with nothing left succeeds without effect
      ensures docker.Sure() && AllGone(old(docker.containers), old(docker.volumes), pending, old(containers), volumes) ==>
              && ok && containers == old(containers)
              && docker.containers == old(docker.containers) && docker.volumes == old(docker.volumes)
    {
      hide Identity, LiveContainer, RemovedOnlyOwned, RemovedOnlyIdentified, Removable, Identifiable, FreeVolume,
           Cleanable, PassesCheck;
      CleanableParts(docker.containers, docker.volumes, pending, containers, volumes, defaults, owner);
      ghost var first := docker.containers;
      var reconciled := ReconcilePending();
      forall r | r in containers && r !in old(containers)
        ensures Removable(first, r, defaults, owner) && r.id in first && Identity(first[r.id], r, defaults, owner) {
        PassesIsRemovable(r);
      }
      var removed := RemoveRecorded();
      RemovedAreRemovals(first, docker.containers, containers, defaults, owner);
      if reconciled && removed {
        forall p | p in pending ensures !LiveContainer(docker.containers, p.name) {
          ReconciledThenGone(first, docker.containers, containers, p.name);
        }
        VolumesFreed(first, docker.containers, docker.volumes, pending, old(containers), volumes, defaults, owner);
      }
      var freed := RemoveVolumes();
      ok := reconciled && removed && freed;
    }

    // ---- Creation ----------------------------------------------------------------------------

    /** The containers a run holds. `base` is the world it started in: that world is intact, every
        container beyond it is on record, and no record names a part of it. */
    ghost predicate HoldsContainers(base: Containers)
      reads this, docker
    {
      && docker.Valid()
      && Secured(base, docker.containers, pending, defaults, owner)
      && (forall r :: r in containers ==> r.intent in pending)
      && KnownImages(defaults, docker.images)
    }

    /** What every step of a run keeps: the same for containers and for volumes. */
    ghost predicate Holds(base: Containers, baseVolumes: Volumes)
      reads this, docker
    {
      HoldsContainers(base) && SecuredVolumes(baseVolumes, docker.volumes, volumes)
    }

    /** With an engine that reports exactly, records stay true of the live resources. */
    ghost predicate Tracks()
      reads this, docker
    {
      docker.accurate ==>
        && TrueRecords(docker.containers, docker.issued, containers, defaults, owner)
        && TrueVolumes(docker.volumes, volumes, owner)
    }

    /** `Custody.volume`. */
    method MakeVolume(token: string, ghost base: Containers, ghost baseVolumes: Volumes) returns (r: Option<string>)
      requires Holds(base, baseVolumes)
      modifies this`volumes, docker`volumes
      ensures Holds(base, baseVolumes) && (old(Tracks()) ==> Tracks())
      ensures old(docker.volumes).Keys <= docker.volumes.Keys && old(volumes) <= volumes
      // nothing happens in the engine before the name is on record
      ensures volumes == old(volumes) || volumes == old(volumes) + [CANDIDATE_PREFIX + token]
      ensures volumes == old(volumes) ==> docker.volumes == old(docker.volumes)
      ensures r.Some? ==> r.value == CANDIDATE_PREFIX + token && r.value in volumes && r.value in docker.volumes
      ensures r.Some? ==> r.value !in old(docker.volumes) && VolumeIdentity(docker.volumes[r.value], r.value, owner)
      // an exactly reporting engine: a well-formed free name is tried, and what was created is handed out
      // unless a container has its name
      ensures docker.accurate ==> (volumes != old(volumes) <==> IsToken(token) && CANDIDATE_PREFIX + token !in old(docker.volumes))
      ensures docker.accurate ==>
              (r.Some? <==> docker.volumes != old(docker.volumes) && !LiveContainer(docker.containers, CANDIDATE_PREFIX + token))
    {
      hide Secured, KnownImages, TrueRecords;
      var name := CANDIDATE_PREFIX + token;
      if !IsToken(token) {
        return None;
      }
      var answer := docker.VolumeAbsent(name);
      if answer != Proven {
        return None;
      }
      volumes := volumes + [name];
      var created := docker.CreateVolume(name, owner, volumes);
      if old(docker.volumes) != docker.volumes {
        VolumeSecured(baseVolumes, old(docker.volumes), docker.volumes, volumes, name, owner, owner);
      }
      if !created {
        return None;
      }
      var valid := ValidateVolume(name);
      return if valid then Some(name) else None;
    }

    /** The `docker create` of a candidate whose intent is already on record. */
    method Issue(intent: Intent, config: ImageConfig, ghost base: Containers, ghost baseVolumes: Volumes)
      returns (output: Option<string>)
      requires Holds(base, baseVolumes) && intent in pending && !IsId(intent.name)
      requires intent.image in defaults && defaults[intent.image] == config
      modifies docker
      ensures HoldsContainers(base)
      ensures Holds(base, baseVolumes) <==> intent.volume in volumes || docker.volumes == old(docker.volumes)
      ensures intent.volume in old(docker.volumes) ==> docker.volumes == old(docker.volumes)
      ensures old(Tracks()) && (old(intent.volume in docker.volumes) || intent.volume !in volumes) ==> Tracks()
      ensures old(docker.volumes).Keys <= docker.volumes.Keys
      ensures docker.accurate && output.Some? ==> output.value in docker.issued
      ensures docker.accurate && output.Some? ==> PassesCheck(Record(output.value, intent))
      ensures docker.accurate ==> (output.Some? <==> docker.containers != old(docker.containers))
      ensures docker.accurate && output.Some? ==> IsId(output.value) && !docker.containers[output.value].running
    {
      RequestedIdentity(intent, config, owner, defaults, "");
      RequestedName(intent, config, owner);
      hide Identity, IsId, RequestedRow, Secured, SecuredVolumes, KnownImages, TrueRecords, TrueVolumes, NamedLikeId, Mounts;
      ghost var live, vols, issued := docker.containers, docker.volumes, docker.issued;
      output := docker.CreateContainer(RequestedRow(intent, config, owner), intent.volume, RecordedNames(pending));
      if live != docker.containers || vols != docker.volumes {
        ghost var id :| id !in issued && Created(live, docker.containers, vols, docker.volumes,
                                                 RequestedRow(intent, config, owner), intent.volume, id);
        CreationSecured(base, live, docker.containers, issued, docker.issued, pending, containers, defaults, owner,
                        intent, config, id);
        if intent.volume !in vols {
          MountCreated(baseVolumes, vols, docker.volumes, volumes, intent.volume, owner);
        }
      }
    }

    /** `Custody.container`: the reported id is recorded before it is checked. */
    method Adopt(id: string, intent: Intent, ghost base: Containers) returns (r: Option<string>)
      requires HoldsContainers(base) && intent in pending
      requires docker.accurate ==> id in docker.issued && PassesCheck(Record(id, intent))
      modifies this`containers
      ensures HoldsContainers(base) && (old(Tracks()) ==> Tracks())
      ensures old(containers) <= containers && (IsId(id) ==> Record(id, intent) in containers)
      ensures forall r :: r in containers && r !in old(containers) ==> r == Record(id, intent)
      ensures r.Some? ==> r.value == id && r.value !in base && IsId(id) && PassesCheck(Record(id, intent))
      ensures r.Some? ==> !docker.containers[id].running
      ensures docker.accurate && IsId(id) && !docker.containers[id].running ==> r.Some?
    {
      hide Identity, IsId, Secured, SecuredVolumes, KnownImages, TrueRecords, TrueVolumes, LiveContainer;
      if !IsId(id) {
        return None;
      }
      var record := Record(id, intent);
      if record !in containers {
        RecordMore(docker.containers, docker.issued, containers, defaults, owner, record);
        containers := containers + [record];
      }
      var valid := Validate(record, Some(false));
      if !valid {
        return None;
      }
      SecuredIsOurs(base, docker.containers, pending, record, defaults, owner);
      return Some(id);
    }

    /** `create_candidate`. */
    method CreateCandidate(token: string, image: string, volume: string, phase: Phase,
                           ghost base: Containers, ghost baseVolumes: Volumes) returns (r: Option<string>)
      requires Holds(base, baseVolumes)
      modifies this`containers, this`pending, this`defaults, docker
      // the cover of containers is kept; that of volumes exactly unless the mount made an unrecorded volume
      ensures HoldsContainers(base)
      ensures Holds(base, baseVolumes) <==> volume in volumes || docker.volumes == old(docker.volumes)
      ensures volume in old(docker.volumes) ==> docker.volumes == old(docker.volumes)
      ensures old(Tracks()) && (old(volume in docker.volumes) || volume !in volumes) ==> Tracks()
      ensures old(docker.volumes).Keys <= docker.volumes.Keys
      // nothing happens in the engine before the intent is on record
      ensures pending == old(pending) || pending == old(pending) + [Intent(CANDIDATE_PREFIX + token, image, volume, phase)]
      ensures pending == old(pending) ==>
              docker.containers == old(docker.containers) && docker.volumes == old(docker.volumes) && containers == old(containers)
      // success: the requested candidate, recorded, identified and not running
      ensures r.Some? ==> var record := Record(r.value, Intent(CANDIDATE_PREFIX + token, image, volume, phase));
                record.intent in pending && record in containers && PassesCheck(record) && !docker.containers[r.value].running
      ensures r.Some? ==> r.value !in base
      // an exactly reporting engine: a free name and a usable image are tried, and what was created is handed out
      ensures docker.accurate ==>
              (pending != old(pending) <==>
               !LiveContainer(old(docker.containers), CANDIDATE_PREFIX + token) &&
               image in docker.images && docker.images[image].entrypoint.Some?)
      ensures docker.accurate ==> (r.Some? <==> docker.containers != old(docker.containers))
    {
      hide Identity, IsId, Secured, SecuredVolumes, KnownImages, TrueRecords, TrueVolumes, LiveContainer;
      var name := CANDIDATE_PREFIX + token;
      var answer := docker.ContainerAbsent(name);
      if answer != Proven {
        return None;
      }
      var config := docker.InspectImage(image);
      if config.None? || config.value.entrypoint.None? {
        return None;
      }
      var intent := Intent(name, image, volume, phase);
      CandidateNamesAreNotIds(token);
      IntentSecured(base, docker.containers, docker.issued, pending, containers, defaults, docker.images, owner,
                    intent, config.value);
      defaults := defaults[image := config.value];
      pending := pending + [intent];
      var output := Issue(intent, config.value, base, baseVolumes);
      if output.None? {
        return None;
      }
      r := Adopt(output.value, intent, base);
    }
  }
}
