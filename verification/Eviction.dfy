/**
 Evicting registry entries and their files: which snapshots may go, given the records that
 stay, and what holds over every run of claims, downloads, evictions and faults.
 */
module Eviction {
  import opened Prelude
  import opened EntryKeys
  import opened Lru

  datatype ModelInfo = ModelInfo(status: ModelStatus, lastUsedAt: int)

  /** One model revision's files in one tenant's partition. */
  datatype Snapshot = Snapshot(tenant: Option<Tenant>, modelName: string, revision: Option<string>)

  /** The registry, the files on disk, and the entries that have a download manifest. */
  datatype State = State(registry: map<string, ModelInfo>, disk: set<Snapshot>, manifests: set<string>)

  /** What goes wrong during one eviction; a failed delete may have removed some files. */
  datatype Faults = Faults(
    lookupFails: bool,
    listFails: bool,
    deleteFails: bool,
    removedAnyway: set<Snapshot>,
    manifestFails: bool,
    registryFails: bool)

  predicate SameModel(k: EntryKey, x: Snapshot) {
    k.tenant == x.tenant && k.modelName == x.modelName
  }

  /** An entry without a revision covers every snapshot of its model. */
  predicate Covers(k: EntryKey, x: Snapshot) {
    SameModel(k, x) && (k.revision.None? || k.revision == x.revision)
  }

  /** The other entries of the same model in the same partition. */
  function Survivors(registry: map<string, ModelInfo>, entryKey: string): set<EntryKey> {
    var key := Parse(entryKey);
    set other | other in registry && other != entryKey && BelongsTo(Parse(other), key.tenant, key.modelName) :: Parse(other)
  }

  predicate StillReferenced(survivors: set<EntryKey>, key: EntryKey) {
    exists other | other in survivors :: other.revision == key.revision || other.revision.None? || key.revision.None?
  }

  /** Which revision to delete: nothing, one revision, or (inner `None`) the whole model. */
  function DeleteRevision(survivors: set<EntryKey>, key: EntryKey): Option<Option<string>> {
    if survivors == {} then Some(None)
    else if StillReferenced(survivors, key) then None
    else Some(key.revision)
  }

  function Targeted(disk: set<Snapshot>, key: EntryKey, deletion: Option<Option<string>>): set<Snapshot> {
    set x | x in disk && deletion.Some? && SameModel(key, x)
            && (deletion.value.None? || deletion.value == x.revision)
  }

  /** `evict_model`: files first, then the manifest, then the record. */
  function Evict(s: State, entryKey: string, f: Faults): (State, bool) {
    if f.lookupFails || entryKey !in s.registry || f.listFails then (s, false)
    else
      var key := Parse(entryKey);
      var deletion := DeleteRevision(Survivors(s.registry, entryKey), key);
      var targeted := Targeted(s.disk, key, deletion);
      if deletion.Some? && f.deleteFails then (s.(disk := s.disk - targeted * f.removedAnyway), false)
      else
        var manifests := if f.manifestFails then s.manifests else s.manifests - {entryKey};
        var s' := State(s.registry, s.disk - targeted, manifests);
        if f.registryFails then (s', false) else (s'.(registry := s.registry - {entryKey}), true)
  }

  // ----- Runs

  /**
   What happens to a cache: a record is created or updated, a download writes a snapshot and later
   the manifest of its entry, a record is cleared without its files, or an entry is evicted. A
   download looks at no record when it writes, so it may be writing for an entry that is gone.
   */
  datatype Event =
    | Record(entryKey: string, info: ModelInfo)
    | Write(snapshot: Snapshot)
    | RecordManifest(entryKey: string)
    | Forget(entryKey: string)
    | EvictEntry(entryKey: string, faults: Faults)

  function Apply(s: State, e: Event): State {
    match e
    case Record(entryKey, info) => s.(registry := s.registry[entryKey := info])
    case Write(snapshot) => s.(disk := s.disk + {snapshot})
    case RecordManifest(entryKey) => s.(manifests := s.manifests + {entryKey})
    case Forget(entryKey) => s.(registry := s.registry - {entryKey})
    case EvictEntry(entryKey, faults) => Evict(s, entryKey, faults).0
  }

  function ApplyAll(s: State, events: seq<Event>): State {
    if events == [] then s
    else Apply(ApplyAll(s, events[..|events| - 1]), events[|events| - 1])
  }

  const EMPTY := State(map[], {}, {})

  // ----- One eviction

  /** When an eviction goes through: every call it makes succeeds, and files are deleted only if some are to go. */
  predicate Succeeds(s: State, entryKey: string, f: Faults) {
    && !f.lookupFails && entryKey in s.registry && !f.listFails && !f.registryFails
    && (f.deleteFails ==> DeleteRevision(Survivors(s.registry, entryKey), Parse(entryKey)).None?)
  }

  /** It reports success, and drops its record and no other, exactly then. */
  lemma {:induction false} EvictSucceedsIff(s: State, entryKey: string, f: Faults)
    ensures Evict(s, entryKey, f).1 <==> Succeeds(s, entryKey, f)
    ensures Evict(s, entryKey, f).0.registry == if Succeeds(s, entryKey, f) then s.registry - {entryKey} else s.registry
  {
  }

  /** An eviction removes only files of its own tenant and model. */
  lemma {:induction false} EvictStaysWithinModel(s: State, entryKey: string, f: Faults, x: Snapshot)
    requires x in s.disk && x !in Evict(s, entryKey, f).0.disk
    ensures SameModel(Parse(entryKey), x)
    ensures Evict(s, entryKey, f).0.disk <= s.disk
  {
  }

  lemma {:induction false} SurvivorFound(registry: map<string, ModelInfo>, entryKey: string, other: string)
    requires other in registry && other != entryKey
    requires Parse(other).tenant == Parse(entryKey).tenant && Parse(other).modelName == Parse(entryKey).modelName
    ensures Parse(other) in Survivors(registry, entryKey)
  {
  }

  /** No eviction, failed or not, removes a snapshot that another record still covers. */
  lemma {:induction false} EvictKeepsCoveredSnapshots(s: State, entryKey: string, f: Faults, other: string, x: Snapshot)
    requires other in s.registry && other != entryKey
    requires x in s.disk && Covers(Parse(other), x)
    ensures x in Evict(s, entryKey, f).0.disk
  {
    if x !in Evict(s, entryKey, f).0.disk {
      EvictStaysWithinModel(s, entryKey, f, x);
      SurvivorFound(s.registry, entryKey, other);
      assert false;
    }
  }

  /** Evicting the last record of a model removes every snapshot of it, however it got there. */
  lemma {:induction false} LastEvictionReclaims(s: State, entryKey: string, f: Faults, x: Snapshot)
    requires Evict(s, entryKey, f).1
    requires SameModel(Parse(entryKey), x)
    requires forall other | other in s.registry && SameModel(Parse(other), x) :: other == entryKey
    ensures x !in Evict(s, entryKey, f).0.disk
  {
  }

  // ----- Reclamation over runs

  ghost predicate HasRecord(s: State, x: Snapshot) {
    exists key :: key in s.registry && SameModel(Parse(key), x)
  }

  /** Every snapshot on disk has some record of its tenant and model. */
  ghost predicate Reclaimable(s: State) {
    forall x | x in s.disk :: HasRecord(s, x)
  }

  lemma {:induction false} EvictKeepsReclaimable(s: State, entryKey: string, f: Faults)
    requires Reclaimable(s)
    ensures Reclaimable(Evict(s, entryKey, f).0)
  {
    var after := Evict(s, entryKey, f).0;
    forall x | x in after.disk ensures HasRecord(after, x) {
      EvictSucceedsIff(s, entryKey, f);
      var key :| key in s.registry && SameModel(Parse(key), x);
      if !HasRecord(after, x) {
        OnlyRecord(s, entryKey, f, x);
        LastEvictionReclaims(s, entryKey, f, x);
        assert false;
      }
    }
  }

  /** An eviction after which a model has no record evicted the only one it had. */
  lemma {:induction false} OnlyRecord(s: State, entryKey: string, f: Faults, x: Snapshot)
    requires HasRecord(s, x) && !HasRecord(Evict(s, entryKey, f).0, x)
    ensures Evict(s, entryKey, f).1 && SameModel(Parse(entryKey), x)
    ensures forall other | other in s.registry && SameModel(Parse(other), x) :: other == entryKey
  {
    EvictSucceedsIff(s, entryKey, f);
    var after := Evict(s, entryKey, f).0;
    forall other | other in s.registry && SameModel(Parse(other), x) ensures other == entryKey {
      assert other !in after.registry;
    }
    var key :| key in s.registry && SameModel(Parse(key), x);
    assert key == entryKey;
  }

  /** The event leaves a snapshot without a record: written for a model that has none, or its model's last record cleared. */
  ghost predicate Orphans(s: State, e: Event) {
    match e
    case Write(x) => !HasRecord(s, x)
    case Forget(entryKey) =>
      exists x :: x in s.disk && HasRecord(s, x) && forall key | key in s.registry && SameModel(Parse(key), x) :: key == entryKey
    case _ => false
  }

  /** Each event keeps every snapshot reclaimable, except exactly these; no eviction is among them, through any faults. */
  lemma {:induction false} ApplyKeepsReclaimableIff(s: State, e: Event)
    requires Reclaimable(s)
    ensures Reclaimable(Apply(s, e)) <==> !Orphans(s, e)
  {
    var after := Apply(s, e);
    match e
    case Record(entryKey, _) =>
      forall x | x in after.disk ensures HasRecord(after, x) {
        var key :| key in s.registry && SameModel(Parse(key), x);
        assert key in after.registry;
      }
    case Write(x) =>
      assert x in after.disk && (HasRecord(after, x) <==> HasRecord(s, x));
      forall y | y in s.disk ensures HasRecord(after, y) {}
    case RecordManifest(_) =>
      forall x | x in after.disk ensures HasRecord(after, x) {}
    case Forget(entryKey) =>
      forall x | x in s.disk
        ensures HasRecord(after, x) <==> !forall key | key in s.registry && SameModel(Parse(key), x) :: key == entryKey
      {
        if key :| key in s.registry && SameModel(Parse(key), x) && key != entryKey {
          assert key in after.registry;
        }
      }
    case EvictEntry(entryKey, faults) => EvictKeepsReclaimable(s, entryKey, faults);
  }

  ghost predicate NeverOrphans(s: State, events: seq<Event>) {
    forall i | 0 <= i < |events| :: !Orphans(ApplyAll(s, events[..i]), events[i])
  }

  lemma {:induction false} RunsKeepReclaimable(s: State, events: seq<Event>)
    requires Reclaimable(s) && NeverOrphans(s, events)
    ensures Reclaimable(ApplyAll(s, events))
  {
    if events != [] {
      var n := |events| - 1;
      var init := events[..n];
      forall i | 0 <= i < n ensures !Orphans(ApplyAll(s, init[..i]), init[i]) {
        assert init[..i] == events[..i];
      }
      RunsKeepReclaimable(s, init);
      ApplyKeepsReclaimableIff(ApplyAll(s, init), events[n]);
    }
  }

  /**
   In every run that never orphans a snapshot, through any faults: once no record of a model is left,
   none of its snapshots is left either, including those kept back by earlier shared-file decisions.
   */
  lemma {:induction false} NoSnapshotOutlivesItsRecords(events: seq<Event>, tenant: Option<Tenant>, modelName: string)
    requires NeverOrphans(EMPTY, events)
    requires forall key | key in ApplyAll(EMPTY, events).registry :: !BelongsTo(Parse(key), tenant, modelName)
    ensures forall x | x in ApplyAll(EMPTY, events).disk :: !(x.tenant == tenant && x.modelName == modelName)
  {
    RunsKeepReclaimable(EMPTY, events);
    forall x | x in ApplyAll(EMPTY, events).disk ensures !(x.tenant == tenant && x.modelName == modelName) {
      assert HasRecord(ApplyAll(EMPTY, events), x);
    }
  }

  // ----- Exactly which snapshots outlive their records

  /** After this event the snapshot is on disk whatever its records: it was just written, or a record of its model was just cleared. */
  predicate Leaves(s: State, e: Event, x: Snapshot) {
    || e == Write(x)
    || (e.Forget? && SameModel(Parse(e.entryKey), x) && x in s.disk)
  }

  /** At position `m` of the run the snapshot was left, and its model has had no record since. */
  ghost predicate LeftAt(events: seq<Event>, x: Snapshot, m: nat)
    requires m < |events|
  {
    && Leaves(ApplyAll(EMPTY, events[..m]), events[m], x)
    && forall k | m < k <= |events| :: !HasRecord(ApplyAll(EMPTY, events[..k]), x)
  }

  ghost predicate LeftBehind(events: seq<Event>, x: Snapshot) {
    exists m :: 0 <= m < |events| && LeftAt(events, x, m)
  }

  lemma {:induction false} LeftAtPrefix(events: seq<Event>, x: Snapshot, m: nat)
    requires m < |events| - 1 && !HasRecord(ApplyAll(EMPTY, events), x)
    ensures LeftAt(events, x, m) <==> LeftAt(events[..|events| - 1], x, m)
  {
    hide HasRecord, Leaves;
    var init := events[..|events| - 1];
    assert init[..m] == events[..m] && init[m] == events[m] && events[..|events|] == events;
    assert forall k | 0 <= k <= |init| :: init[..k] == events[..k];
  }

  /** While a model has no record nothing deletes its snapshots, and only a write brings one. */
  lemma {:induction false} UnrecordedStep(s: State, e: Event, x: Snapshot)
    requires !HasRecord(s, x)
    ensures x in Apply(s, e).disk <==> x in s.disk || e == Write(x)
  {
    if e.EvictEntry? && x in s.disk && x !in Apply(s, e).disk {
      EvictStaysWithinModel(s, e.entryKey, e.faults, x);
      assert false;
    }
  }

  /** When a model loses its last record, its snapshots stay exactly if the record was cleared rather than evicted. */
  lemma {:induction false} LastRecordStep(s: State, e: Event, x: Snapshot)
    requires HasRecord(s, x) && !HasRecord(Apply(s, e), x)
    ensures x in Apply(s, e).disk <==> Leaves(s, e, x)
  {
    match e
    case EvictEntry(entryKey, f) =>
      OnlyRecord(s, entryKey, f, x);
      LastEvictionReclaims(s, entryKey, f, x);
    case Record(entryKey, info) => RecordKeepsRecords(s, entryKey, info, x);
    case Forget(entryKey) =>
      var key :| key in s.registry && SameModel(Parse(key), x);
      assert key == entryKey;
    case _ =>
  }

  lemma {:induction false} RecordKeepsRecords(s: State, entryKey: string, info: ModelInfo, x: Snapshot)
    requires HasRecord(s, x)
    ensures HasRecord(Apply(s, Record(entryKey, info)), x)
  {
    var key :| key in s.registry && SameModel(Parse(key), x);
    assert key in Apply(s, Record(entryKey, info)).registry;
  }

  /** In every run, through any faults: a snapshot whose model has no record is on disk if and only if it was written, or its last record cleared, and its model has had no record since. */
  lemma {:induction false} SnapshotOutlivesItsRecordsIff(events: seq<Event>, x: Snapshot)
    requires !HasRecord(ApplyAll(EMPTY, events), x)
    ensures x in ApplyAll(EMPTY, events).disk <==> LeftBehind(events, x)
  {
    if events != [] {
      var n := |events| - 1;
      var init, e := events[..n], events[n];
      var s := ApplyAll(EMPTY, init);
      assert events[..n + 1] == events;
      assert LeftAt(events, x, n) <==> Leaves(s, e, x);
      forall m | 0 <= m < n ensures LeftAt(events, x, m) <==> LeftAt(init, x, m) {
        LeftAtPrefix(events, x, m);
      }
      if HasRecord(s, x) {
        LastRecordStep(s, e, x);
        forall m | 0 <= m < n ensures !LeftAt(events, x, m) {}
        assert LeftBehind(events, x) <==> LeftAt(events, x, n);
      } else {
        UnrecordedStep(s, e, x);
        SnapshotOutlivesItsRecordsIff(init, x);
        assert LeftBehind(events, x) <==> LeftBehind(init, x) || LeftAt(events, x, n);
      }
    }
  }

  // ----- Safety over runs

  /** No event of the run evicts this entry or clears its record. */
  ghost predicate NeverDropped(events: seq<Event>, entryKey: string) {
    forall i | 0 <= i < |events| && (events[i].EvictEntry? || events[i].Forget?) :: events[i].entryKey != entryKey
  }

  /**
   A record that is never itself dropped stays, and keeps every snapshot it covers, through
   any run of other evictions, failed deletes included.
   */
  lemma {:induction false} RecordProtectsItsSnapshots(s: State, events: seq<Event>, entryKey: string, x: Snapshot)
    requires entryKey in s.registry && x in s.disk && Covers(Parse(entryKey), x)
    requires NeverDropped(events, entryKey)
    ensures entryKey in ApplyAll(s, events).registry && x in ApplyAll(s, events).disk
  {
    if events != [] {
      var n := |events| - 1;
      RecordProtectsItsSnapshots(s, events[..n], entryKey, x);
      var before := ApplyAll(s, events[..n]);
      if events[n].EvictEntry? {
        EvictKeepsCoveredSnapshots(before, events[n].entryKey, events[n].faults, entryKey, x);
      }
    }
  }

  // ----- When other requests run between the listing and the deletion

  /** The files an eviction deletes when it decided on the records listed earlier. */
  function DeleteOnListing(listed: map<string, ModelInfo>, s: State, entryKey: string): State {
    var key := Parse(entryKey);
    s.(disk := s.disk - Targeted(s.disk, key, DeleteRevision(Survivors(listed, entryKey), key)))
  }

  /**
   The snapshots that evicting an entry deletes, given the records listed: all of the model if no
   other entry of it was listed, else those of the entry's own revision that no other listed entry
   covers.
   */
  ghost predicate Endangered(listed: map<string, ModelInfo>, entryKey: string, x: Snapshot) {
    var key := Parse(entryKey);
    && SameModel(key, x)
    && (|| (forall other | other in listed && SameModel(Parse(other), x) :: other == entryKey)
        || (key.revision.Some? && key.revision == x.revision
            && forall other | other in listed && other != entryKey :: !Covers(Parse(other), x)))
  }

  lemma {:induction false} NoSurvivorsIff(listed: map<string, ModelInfo>, entryKey: string, x: Snapshot)
    requires SameModel(Parse(entryKey), x)
    ensures Survivors(listed, entryKey) == {} <==> forall other | other in listed && SameModel(Parse(other), x) :: other == entryKey
  {
    if Survivors(listed, entryKey) == {} {
      forall other | other in listed && SameModel(Parse(other), x) ensures other == entryKey {
        if other != entryKey {
          SurvivorFound(listed, entryKey, other);
        }
      }
    }
  }

  lemma {:induction false} ReferencedIff(listed: map<string, ModelInfo>, entryKey: string, x: Snapshot)
    requires Covers(Parse(entryKey), x) && Parse(entryKey).revision.Some?
    ensures StillReferenced(Survivors(listed, entryKey), Parse(entryKey)) <==>
            exists other :: other in listed && other != entryKey && Covers(Parse(other), x)
  {
    if other :| other in listed && other != entryKey && Covers(Parse(other), x) {
      SurvivorFound(listed, entryKey, other);
    }
  }

  /** Exactly which snapshots go when an eviction decided on the records listed earlier, whatever happened since. */
  lemma {:induction false} DeletedOnListingIff(listed: map<string, ModelInfo>, s: State, entryKey: string, x: Snapshot)
    requires x in s.disk
    ensures x !in DeleteOnListing(listed, s, entryKey).disk <==> Endangered(listed, entryKey, x)
  {
    var key := Parse(entryKey);
    if SameModel(key, x) {
      NoSurvivorsIff(listed, entryKey, x);
      if key.revision.Some? && key.revision == x.revision {
        ReferencedIff(listed, entryKey, x);
      }
    }
  }

  /** Every record that was already listed keeps the snapshots it covers. */
  lemma {:induction false} ListedRecordsAreSafe(listed: map<string, ModelInfo>, s: State, entryKey: string, other: string, x: Snapshot)
    requires other in listed && other != entryKey
    requires x in s.disk && Covers(Parse(other), x)
    ensures x in DeleteOnListing(listed, s, entryKey).disk
  {
    DeletedOnListingIff(listed, s, entryKey, x);
  }

  /**
   A record that arrives between the listing and the deletion is not protected: it keeps a snapshot
   that it covers if and only if the entries already listed save it.
   */
  lemma {:induction false} LateRecordLosesItsFilesIff(listed: map<string, ModelInfo>, s: State, entryKey: string, late: string, x: Snapshot)
    requires late in s.registry && late !in listed && late != entryKey
    requires x in s.disk && Covers(Parse(late), x)
    ensures x !in DeleteOnListing(listed, s, entryKey).disk <==>
            && BelongsTo(Parse(late), Parse(entryKey).tenant, Parse(entryKey).modelName)
            && (|| (forall other | other in listed && other != entryKey :: !SameModel(Parse(other), x))
                || (Parse(entryKey).revision.Some? && Parse(entryKey).revision == x.revision
                    && forall other | other in listed && other != entryKey :: !Covers(Parse(other), x)))
  {
    DeletedOnListingIff(listed, s, entryKey, x);
  }

  /** With nothing in between, a successful eviction deletes exactly those snapshots, judged by the registry itself. */
  lemma {:induction false} EvictDeletesIff(s: State, entryKey: string, f: Faults, x: Snapshot)
    requires Evict(s, entryKey, f).1 && x in s.disk
    ensures x !in Evict(s, entryKey, f).0.disk <==> Endangered(s.registry, entryKey, x)
  {
    DeletedOnListingIff(s.registry, s, entryKey, x);
  }

  // ----- Download manifests

  /** Every download manifest belongs to a record. */
  predicate ManifestsRecorded(s: State) {
    s.manifests <= s.registry.Keys
  }

  /** An eviction touches no other entry's manifest, and leaves its own without a record exactly when it goes through although removing the manifest fails. */
  lemma {:induction false} EvictKeepsManifestsRecordedIff(s: State, entryKey: string, f: Faults)
    requires ManifestsRecorded(s)
    ensures Evict(s, entryKey, f).0.manifests - {entryKey} == s.manifests - {entryKey}
    ensures ManifestsRecorded(Evict(s, entryKey, f).0) <==>
            !(Succeeds(s, entryKey, f) && f.manifestFails && entryKey in s.manifests)
  {
    EvictSucceedsIff(s, entryKey, f);
    var after := Evict(s, entryKey, f).0;
    if Succeeds(s, entryKey, f) && f.manifestFails && entryKey in s.manifests {
      assert entryKey in after.manifests && entryKey !in after.registry.Keys;
    }
  }

  /** After this event the entry's manifest is there whatever its record: just written, or kept by what drops the record. */
  predicate LeavesManifest(s: State, e: Event, entryKey: string) {
    match e
    case RecordManifest(key) => key == entryKey
    case Forget(key) => key == entryKey && entryKey in s.manifests
    case EvictEntry(key, f) => key == entryKey && entryKey in s.manifests && Succeeds(s, key, f) && f.manifestFails
    case _ => false
  }

  /** Each event keeps every manifest recorded, except exactly when it leaves one for an entry without a record. */
  lemma {:induction false} ApplyKeepsManifestsRecordedIff(s: State, e: Event)
    requires ManifestsRecorded(s)
    ensures ManifestsRecorded(Apply(s, e)) <==>
            !(!e.Record? && !e.Write? && LeavesManifest(s, e, e.entryKey) && (e.RecordManifest? ==> e.entryKey !in s.registry))
  {
    var after := Apply(s, e);
    match e
    case EvictEntry(entryKey, f) => EvictKeepsManifestsRecordedIff(s, entryKey, f);
    case Forget(entryKey) =>
      if entryKey in s.manifests {
        assert entryKey in after.manifests && entryKey !in after.registry.Keys;
      }
    case RecordManifest(entryKey) => assert entryKey in after.manifests;
    case _ =>
  }

  ghost predicate ManifestLeftAt(events: seq<Event>, entryKey: string, m: nat)
    requires m < |events|
  {
    && LeavesManifest(ApplyAll(EMPTY, events[..m]), events[m], entryKey)
    && forall k | m < k <= |events| :: entryKey !in ApplyAll(EMPTY, events[..k]).registry
  }

  ghost predicate ManifestLeftBehind(events: seq<Event>, entryKey: string) {
    exists m :: 0 <= m < |events| && ManifestLeftAt(events, entryKey, m)
  }

  lemma {:induction false} ManifestLeftAtPrefix(events: seq<Event>, entryKey: string, m: nat)
    requires m < |events| - 1 && entryKey !in ApplyAll(EMPTY, events).registry
    ensures ManifestLeftAt(events, entryKey, m) <==> ManifestLeftAt(events[..|events| - 1], entryKey, m)
  {
    var init := events[..|events| - 1];
    assert init[..m] == events[..m] && init[m] == events[m] && events[..|events|] == events;
    assert forall k | 0 <= k <= |init| :: init[..k] == events[..k];
  }

  /** After an event that leaves an entry without a record, its manifest is there exactly if the event left it, or it was there without a record before. */
  lemma {:induction false} ManifestStep(s: State, e: Event, entryKey: string)
    requires entryKey !in Apply(s, e).registry
    ensures entryKey in Apply(s, e).manifests <==>
            LeavesManifest(s, e, entryKey) || (entryKey !in s.registry && entryKey in s.manifests)
  {
    if e.EvictEntry? {
      EvictSucceedsIff(s, e.entryKey, e.faults);
    }
  }

  /** In every run: an entry without a record has a manifest if and only if one was written for it, its record cleared, or it evicted although removing the manifest failed, and it has had no record since. */
  lemma {:induction false} ManifestOutlivesItsRecordIff(events: seq<Event>, entryKey: string)
    requires entryKey !in ApplyAll(EMPTY, events).registry
    ensures entryKey in ApplyAll(EMPTY, events).manifests <==> ManifestLeftBehind(events, entryKey)
  {
    if events != [] {
      var n := |events| - 1;
      var init, e := events[..n], events[n];
      var s := ApplyAll(EMPTY, init);
      assert events[..n + 1] == events;
      assert ManifestLeftAt(events, entryKey, n) <==> LeavesManifest(s, e, entryKey);
      forall m | 0 <= m < n ensures ManifestLeftAt(events, entryKey, m) <==> ManifestLeftAt(init, entryKey, m) {
        ManifestLeftAtPrefix(events, entryKey, m);
      }
      ManifestStep(s, e, entryKey);
      if entryKey in s.registry {
        forall m | 0 <= m < n ensures !ManifestLeftAt(events, entryKey, m) {}
        assert ManifestLeftBehind(events, entryKey) <==> ManifestLeftAt(events, entryKey, n);
      } else {
        ManifestOutlivesItsRecordIff(init, entryKey);
        assert ManifestLeftBehind(events, entryKey) <==> ManifestLeftBehind(init, entryKey) || ManifestLeftAt(events, entryKey, n);
      }
    }
  }

  /** Manifests are written under their record only, no record is cleared, and no removal of a manifest fails. */
  ghost predicate ManifestsHandled(s: State, events: seq<Event>) {
    forall i | 0 <= i < |events| ::
      && (events[i].RecordManifest? ==> events[i].entryKey in ApplyAll(s, events[..i]).registry)
      && !events[i].Forget?
      && (events[i].EvictEntry? ==> !events[i].faults.manifestFails)
  }

  /** In every such run, whatever else fails, no manifest outlives its record. */
  lemma {:induction false} NoManifestOutlivesItsRecord(events: seq<Event>)
    requires ManifestsHandled(EMPTY, events)
    ensures ManifestsRecorded(ApplyAll(EMPTY, events))
  {
    if events != [] {
      var n := |events| - 1;
      var init := events[..n];
      assert forall i | 0 <= i < n :: init[..i] == events[..i];
      NoManifestOutlivesItsRecord(init);
      ApplyKeepsManifestsRecordedIff(ApplyAll(EMPTY, init), events[n]);
    }
  }

  // ----- A download that outlives its record

  /** An entry is recorded and its download has written files when it is evicted, without any fault. */
  function Evicted(s: State, entryKey: string, info: ModelInfo, x: Snapshot): State {
    Apply(Apply(Apply(s, Record(entryKey, info)), Write(x)), EvictEntry(entryKey, NO_FAULTS))
  }

  lemma {:induction false} EvictedIsGone(entryKey: string, info: ModelInfo, x: Snapshot)
    requires Covers(Parse(entryKey), x)
    ensures Evicted(EMPTY, entryKey, info, x) == EMPTY
  {
    var written := State(map[entryKey := info], {x}, {});
    assert Survivors(written.registry, entryKey) == {};
    assert Targeted(written.disk, Parse(entryKey), Some(None)) == {x};
    assert written.registry - {entryKey} == map[];
  }

  /** For every entry, with no fault at all: a download still at work when its entry is evicted leaves its files and its manifest with an empty registry. */
  lemma {:induction false} LateDownloadIsOrphaned(entryKey: string, info: ModelInfo, x: Snapshot)
    requires Covers(Parse(entryKey), x)
    ensures Apply(Apply(Evicted(EMPTY, entryKey, info, x), Write(x)), RecordManifest(entryKey)) == State(map[], {x}, {entryKey})
  {
    EvictedIsGone(entryKey, info, x);
  }

  /** A record that is never itself dropped keeps its manifest through any run, faults included. */
  lemma {:induction false} RecordKeepsItsManifest(s: State, events: seq<Event>, entryKey: string)
    requires entryKey in s.manifests && NeverDropped(events, entryKey)
    ensures entryKey in ApplyAll(s, events).manifests
  {
    if events != [] {
      RecordKeepsItsManifest(s, events[..|events| - 1], entryKey);
    }
  }

  // ----- The service

  const NO_FAULTS := Faults(false, false, false, {}, false, false)

  /** A listing of the registry, oldest first, as the backends return it. */
  ghost predicate IsListing(models: seq<ModelRecord>, registry: map<string, ModelInfo>) {
    && DistinctNames(models)
    && Sorted(models)
    && Names(models) == registry.Keys
    && forall m | m in models :: m.modelName in registry && registry[m.modelName] == ModelInfo(m.status, m.lastUsedAt)
  }

  /** The models that the policy selects: the first ones in last-used order. */
  ghost function Chosen(models: seq<ModelRecord>, config: LruConfig): set<string> {
    Names(Queue(models)[..Min(EvictionCount(models, config), |Queue(models)|)])
  }

  ghost function ExpiredKeys(registry: map<string, ModelInfo>, cutoff: int): set<string> {
    set key | key in registry && registry[key].status == DOWNLOADED && registry[key].lastUsedAt < cutoff
  }

  ghost function DownloadedKeys(registry: map<string, ModelInfo>): set<string> {
    set key | key in registry && registry[key].status == DOWNLOADED
  }

  function NamesInOrder(candidates: seq<EvictionCandidate>): seq<string> {
    seq(|candidates|, i requires 0 <= i < |candidates| => candidates[i].modelName)
  }

  // ----- A run of evictions, one after the other

  function Evictions(keys: seq<string>, faults: nat -> Faults): seq<Event> {
    seq(|keys|, i requires 0 <= i < |keys| => EvictEntry(keys[i], faults(i)))
  }

  lemma {:induction false} EvictionsSnoc(s: State, keys: seq<string>, faults: nat -> Faults, key: string)
    ensures ApplyAll(s, Evictions(keys + [key], faults)) == Evict(ApplyAll(s, Evictions(keys, faults)), key, faults(|keys|)).0
  {
    var all := Evictions(keys + [key], faults);
    assert all[..|keys|] == Evictions(keys, faults);
  }

  /** What evictions leave alone, through any faults: every record and manifest but their own, what other records cover, and other models. They add nothing. */
  lemma {:induction false} EvictionsLeaveOthersAlone(s: State, keys: seq<string>, faults: nat -> Faults)
    ensures var after := ApplyAll(s, Evictions(keys, faults));
            && after.disk <= s.disk && after.manifests <= s.manifests && after.registry.Keys <= s.registry.Keys
            && s.manifests - (set k | k in keys) <= after.manifests
            && (forall other | other in s.registry && other !in keys :: other in after.registry && after.registry[other] == s.registry[other])
            && (forall other, x | other in s.registry && other !in keys && x in s.disk && Covers(Parse(other), x) :: x in after.disk)
            && (forall x | x in s.disk && (forall key | key in keys :: !SameModel(Parse(key), x)) :: x in after.disk)
  {
    if keys != [] {
      var n := |keys| - 1;
      var init, last := keys[..n], keys[n];
      assert keys == init + [last];
      EvictionsLeaveOthersAlone(s, init, faults);
      EvictionsSnoc(s, init, faults, last);
      var before := ApplyAll(s, Evictions(init, faults));
      EvictSucceedsIff(before, last, faults(n));
      forall other, x | other in s.registry && other !in keys && x in s.disk && Covers(Parse(other), x)
        ensures x in ApplyAll(s, Evictions(keys, faults)).disk
      {
        assert other in before.registry && x in before.disk;
        EvictKeepsCoveredSnapshots(before, last, faults(n), other, x);
      }
      forall x | x in s.disk && forall key | key in keys :: !SameModel(Parse(key), x)
        ensures x in ApplyAll(s, Evictions(keys, faults)).disk
      {
        assert forall key | key in init :: key in keys;
        if x !in ApplyAll(s, Evictions(keys, faults)).disk {
          EvictStaysWithinModel(before, last, faults(n), x);
          assert false;
        }
      }
    }
  }

  function Without(registry: map<string, ModelInfo>, keys: seq<string>): map<string, ModelInfo> {
    registry - (set k | k in keys)
  }

  /** Some eviction found the snapshot endangered, judged by the records left at its turn. */
  ghost predicate EndangeredInTurn(registry: map<string, ModelInfo>, keys: seq<string>, x: Snapshot) {
    exists j :: 0 <= j < |keys| && Endangered(Without(registry, keys[..j]), keys[j], x)
  }

  lemma {:induction false} EndangeredSnoc(registry: map<string, ModelInfo>, keys: seq<string>, key: string, x: Snapshot)
    ensures EndangeredInTurn(registry, keys + [key], x) <==>
            EndangeredInTurn(registry, keys, x) || Endangered(Without(registry, keys), key, x)
  {
    hide Endangered, Without;
    var all := keys + [key];
    assert all[..|keys|] == keys && all[|keys|] == key;
    assert forall j | 0 <= j < |keys| :: all[..j] == keys[..j] && all[j] == keys[j];
  }

  /** Without faults, a run of evictions of distinct records deletes exactly the snapshots endangered in turn, and drops exactly those records. */
  lemma {:induction false} EvictionsDeleteIff(s: State, keys: seq<string>, faults: nat -> Faults, x: Snapshot)
    requires FaultFree(faults, |keys|) && (forall i, j | 0 <= i < j < |keys| :: keys[i] != keys[j])
    requires x in s.disk && forall i | 0 <= i < |keys| :: keys[i] in s.registry
    ensures var after := ApplyAll(s, Evictions(keys, faults));
            after.registry == Without(s.registry, keys) && (x !in after.disk <==> EndangeredInTurn(s.registry, keys, x))
  {
    if keys == [] {
      assert Evictions(keys, faults) == [] && (set k | k in keys) == {};
    } else {
      var n := |keys| - 1;
      var init, last := keys[..n], keys[n];
      assert keys == init + [last];
      EvictionsDeleteIff(s, init, faults, x);
      EvictionsSnoc(s, init, faults, last);
      EndangeredSnoc(s.registry, init, last, x);
      var before := ApplyAll(s, Evictions(init, faults));
      EvictSucceedsIff(before, last, NO_FAULTS);
      RemoveOneMore(s.registry, init, last);
      if x in before.disk {
        EvictDeletesIff(before, last, NO_FAULTS, x);
      } else {
        EvictionsLeaveOthersAlone(s, keys, faults);
        assert Evict(before, last, faults(n)).0.disk <= before.disk;
      }
    }
  }

  ghost predicate FaultFree(faults: nat -> Faults, n: nat) {
    forall i | 0 <= i < n :: faults(i) == NO_FAULTS
  }

  lemma {:induction false} ListingCountsDownloaded(models: seq<ModelRecord>, registry: map<string, ModelInfo>)
    requires IsListing(models, registry)
    ensures DownloadedKeys(registry) == Names(DownloadedOf(models))
    ensures |DownloadedKeys(registry)| == |DownloadedOf(models)|
  {
    DownloadedMembers(models);
    forall key | key in DownloadedKeys(registry) ensures key in Names(DownloadedOf(models)) {
      assert key in Names(models);
      var m :| m in models && m.modelName == key;
      assert m in DownloadedOf(models);
    }
    forall key | key in Names(DownloadedOf(models)) ensures key in DownloadedKeys(registry) {
      var m :| m in DownloadedOf(models) && m.modelName == key;
      assert m in models;
    }
    DistinctDownloaded(models);
    DistinctNamesCounted(DownloadedOf(models));
  }

  class CacheEvictionService {
    var registry: map<string, ModelInfo>
    var disk: set<Snapshot>
    var manifests: set<string>

    ghost function Abs(): State
      reads this
    {
      State(registry, disk, manifests)
    }

    /** Evict one entry; the record goes last, so a failure can be retried. */
    method EvictModel(entryKey: string, f: Faults) returns (ok: bool)
      modifies this
      ensures (Abs(), ok) == Evict(old(Abs()), entryKey, f)
    {
      if f.lookupFails || entryKey !in registry {
        return false;
      }
      var key := Parse(entryKey);
      if f.listFails {
        return false;
      }
      var survivors := set other | other in registry && other != entryKey
                                   && Parse(other).modelName == key.modelName && Parse(other).tenant == key.tenant
                                 :: Parse(other);
      assert survivors == Survivors(registry, entryKey);
      var stillReferenced := exists other | other in survivors ::
        other.revision == key.revision || other.revision.None? || key.revision.None?;
      var deleteRevision: Option<Option<string>>;
      if survivors == {} {
        deleteRevision := Some(None);
      } else if stillReferenced {
        deleteRevision := None;
      } else {
        deleteRevision := Some(key.revision);
      }
      if deleteRevision.Some? {
        var targeted := Targeted(disk, key, deleteRevision);
        if f.deleteFails {
          disk := disk - targeted * f.removedAnyway;
          return false;
        }
        disk := disk - targeted;
      }
      assert disk == old(disk) - Targeted(old(disk), key, deleteRevision);
      if !f.manifestFails {
        manifests := manifests - {entryKey};
      }
      if f.registryFails {
        return false;
      }
      registry := registry - {entryKey};
      return true;
    }

    /** Evicts one candidate after another; a failure of one does not stop the others. */
    method EvictCandidates(candidates: seq<EvictionCandidate>, faults: nat -> Faults) returns (evicted: seq<string>)
      requires NoDuplicates(candidates) && CandidateNames(candidates) <= registry.Keys
      modifies this
      ensures Abs() == ApplyAll(old(Abs()), Evictions(NamesInOrder(candidates), faults))
      ensures registry == old(registry) - (set name | name in evicted)
      ensures forall name | name in evicted :: name in CandidateNames(candidates)
      ensures old(Reclaimable(Abs())) ==> Reclaimable(Abs())
      ensures FaultFree(faults, |candidates|) ==> evicted == NamesInOrder(candidates)
    {
      ghost var names := NamesInOrder(candidates);
      ghost var before := registry;
      evicted := [];
      assert Evictions([], faults) == [];
      for i := 0 to |candidates|
        invariant Abs() == ApplyAll(old(Abs()), Evictions(names[..i], faults))
        invariant registry == before - (set name | name in evicted)
        invariant forall name | name in evicted :: name in CandidateNames(candidates[..i])
        invariant old(Reclaimable(Abs())) ==> Reclaimable(Abs())
        invariant FaultFree(faults, |candidates|) ==> evicted == names[..i]
      {
        ghost var previous := Abs();
        var ok := EvictModel(candidates[i].modelName, faults(i));
        if old(Reclaimable(Abs())) { EvictKeepsReclaimable(previous, candidates[i].modelName, faults(i)); }
        EvictOutcome(previous, candidates[i].modelName, faults(i));
        EvictionsSnoc(old(Abs()), names[..i], faults, candidates[i].modelName);
        NextCandidate(candidates, i);
        if ok {
          RemoveOneMore(before, evicted, candidates[i].modelName);
          evicted := evicted + [candidates[i].modelName];
        }
      }
      assert candidates[..|candidates|] == candidates && names[..|names|] == names;
    }

    /**
     One cycle: select, then evict each candidate, going on past failures. Without faults the
     cycle evicts exactly the oldest downloaded models the policy asks for and leaves at most
     the configured number; with faults the registry still loses only what was reported.
     */
    method RunEvictionCycle(models: seq<ModelRecord>, config: LruConfig, faults: nat -> Faults)
      returns (evicted: seq<string>)
      requires IsListing(models, registry)
      modifies this
      ensures registry == old(registry) - (set name | name in evicted)
      ensures forall name | name in evicted :: name in Chosen(models, config)
      ensures old(Reclaimable(Abs())) ==> Reclaimable(Abs())
      ensures FaultFree(faults, EvictionCount(models, config)) ==>
                && |evicted| == EvictionCount(models, config) <= |DownloadedOf(models)|
                && forall i | 0 <= i < |evicted| :: evicted[i] == DownloadedOf(models)[i].modelName
      // without faults the models left are those that have not expired, or as many as the limit allows
      ensures FaultFree(faults, EvictionCount(models, config)) ==>
                var current := |DownloadedKeys(old(registry))| - |ExpiredKeys(old(registry), config.cutoff)|;
                |DownloadedKeys(registry)| == if config.maxModels.Some? then Min(current, config.maxModels.value) else current
      // with or without them, whatever is not selected keeps its record, its manifest and the files it covers
      ensures forall other | other in old(registry) && other !in Chosen(models, config) ::
                other in registry && (other in old(manifests) ==> other in manifests)
      ensures forall other, x | other in old(registry) && other !in Chosen(models, config) && x in old(disk) && Covers(Parse(other), x) ::
                x in disk
      ensures forall x | x in old(disk) && (forall name | name in Chosen(models, config) :: !SameModel(Parse(name), x)) :: x in disk
      ensures disk <= old(disk) && manifests <= old(manifests)
      // and without faults exactly the snapshots that were endangered in turn are gone
      ensures FaultFree(faults, EvictionCount(models, config)) ==>
                forall x | x in old(disk) :: x !in disk <==> EndangeredInTurn(old(registry), evicted, x)
    {
      var candidates := SelectForEviction(models, config);
      CandidatesArePresent(models, registry, candidates);
      evicted := EvictCandidates(candidates, faults);
      ghost var keys := NamesInOrder(candidates);
      NamesInOrderAsSet(candidates);
      EvictionsLeaveOthersAlone(old(Abs()), keys, faults);
      if FaultFree(faults, |candidates|) {
        CycleLeaves(models, config, old(registry), registry, candidates);
        forall x | x in old(disk) ensures x !in disk <==> EndangeredInTurn(old(registry), evicted, x) {
          EvictionsDeleteIff(old(Abs()), keys, faults, x);
        }
      }
    }
  }

  lemma {:induction false} EvictOutcome(s: State, entryKey: string, f: Faults)
    ensures var (s', ok) := Evict(s, entryKey, f);
            && (ok ==> entryKey in s.registry && s'.registry == s.registry - {entryKey})
            && (!ok ==> s'.registry == s.registry)
            && (f == NO_FAULTS ==> (ok <==> entryKey in s.registry))
  {
  }

  lemma {:induction false} NextCandidate(candidates: seq<EvictionCandidate>, i: nat)
    requires i < |candidates| && NoDuplicates(candidates)
    ensures candidates[i].modelName in CandidateNames(candidates)
    ensures candidates[i].modelName !in NamesInOrder(candidates)[..i]
    ensures CandidateNames(candidates[..i + 1]) == CandidateNames(candidates[..i]) + {candidates[i].modelName}
    ensures NamesInOrder(candidates)[..i + 1] == NamesInOrder(candidates)[..i] + [candidates[i].modelName]
  {
  }

  lemma {:induction false} RemoveOneMore(registry: map<string, ModelInfo>, gone: seq<string>, name: string)
    ensures (registry - (set n | n in gone)) - {name} == registry - (set n | n in gone + [name])
  {
  }

  lemma {:induction false} CandidatesArePresent(models: seq<ModelRecord>, registry: map<string, ModelInfo>, candidates: seq<EvictionCandidate>)
    requires IsListing(models, registry) && CandidateNames(candidates) <= Names(Queue(models))
    ensures CandidateNames(candidates) <= registry.Keys
  {
    DistinctDownloaded(models);
    SortNames(DownloadedOf(models));
  }

  lemma {:induction false} NamesInOrderAsSet(candidates: seq<EvictionCandidate>)
    ensures (set name | name in NamesInOrder(candidates)) == CandidateNames(candidates)
  {
    forall name | name in CandidateNames(candidates) ensures name in NamesInOrder(candidates) {
      var i :| 0 <= i < |candidates| && candidates[i].modelName == name;
      assert NamesInOrder(candidates)[i] == name;
    }
    forall name | name in NamesInOrder(candidates) ensures name in CandidateNames(candidates) {
      var i :| 0 <= i < |candidates| && NamesInOrder(candidates)[i] == name;
      assert candidates[i].modelName == name;
    }
  }

  lemma {:induction false} QueuePrefixNames(models: seq<ModelRecord>, k: nat)
    requires DistinctNames(models) && k <= |Queue(models)|
    ensures |Names(Queue(models)[..k])| == k
    ensures Names(Queue(models)[..k]) <= Names(DownloadedOf(models))
  {
    SortNames(DownloadedOf(models));
    QueueDistinct(models);
    DistinctNamesCounted(Queue(models)[..k]);
  }

  lemma {:induction false} ListingCountsExpired(models: seq<ModelRecord>, registry: map<string, ModelInfo>, cutoff: int)
    requires IsListing(models, registry)
    ensures |ExpiredKeys(registry, cutoff)| == |ExpiredOf(DownloadedOf(models), cutoff)|
  {
    var downloaded := DownloadedOf(models);
    var expired := ExpiredOf(downloaded, cutoff);
    DownloadedMembers(models);
    ExpiredMembers(downloaded, cutoff);
    DistinctDownloaded(models);
    DistinctExpired(downloaded, cutoff);
    DistinctNamesCounted(expired);
    forall key | key in ExpiredKeys(registry, cutoff) ensures key in Names(expired) {
      assert key in Names(models);
      var m :| m in models && m.modelName == key;
      assert m in expired;
    }
    assert ExpiredKeys(registry, cutoff) == Names(expired);
  }

  /** After the selected records are removed: the downloaded models that have not expired are left, or as many as the limit allows. */
  lemma {:induction false} CycleLeaves(models: seq<ModelRecord>, config: LruConfig, before: map<string, ModelInfo>,
                                       after: map<string, ModelInfo>, candidates: seq<EvictionCandidate>)
    requires IsListing(models, before)
    requires |candidates| == EvictionCount(models, config) <= |Queue(models)|
    requires CandidateNames(candidates) == Names(Queue(models)[..EvictionCount(models, config)])
    requires after == before - (set name | name in NamesInOrder(candidates))
    ensures var current := |DownloadedKeys(before)| - |ExpiredKeys(before, config.cutoff)|;
            |DownloadedKeys(after)| == if config.maxModels.Some? then Min(current, config.maxModels.value) else current
  {
    NamesInOrderAsSet(candidates);
    QueuePrefixNames(models, EvictionCount(models, config));
    ListingCountsDownloaded(models, before);
    ListingCountsExpired(models, before, config.cutoff);
    DownloadedAfterRemoval(before, after, CandidateNames(candidates));
  }

  lemma {:induction false} DownloadedAfterRemoval(before: map<string, ModelInfo>, after: map<string, ModelInfo>, gone: set<string>)
    requires after.Keys == before.Keys - gone && gone <= DownloadedKeys(before)
    requires forall key | key in after :: after[key] == before[key]
    ensures |DownloadedKeys(after)| == |DownloadedKeys(before)| - |gone|
  {
    assert DownloadedKeys(after) == DownloadedKeys(before) - gone;
  }
}
