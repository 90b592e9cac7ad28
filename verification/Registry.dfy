/**
 The claim contract of the model registry, as the in-memory backend implements it: a status
 per entry and a lease that fences the download it was claimed for. Entries are keyed on the
 structured entry key; distinct structured keys never share a printed key.
 */
module Registry {
  import opened Prelude
  import opened EntryKeys
  import opened Lru

  type ClaimId = nat

  datatype Lease = Lease(claimId: ClaimId, expiresAt: int)

  datatype Registry = Registry(models: map<EntryKey, ModelStatus>, leases: map<EntryKey, Lease>)

  datatype ClaimOutcome = Claimed | TookOver | AlreadyExists(status: ModelStatus)

  const LEASE_DURATION := 30

  predicate Expired(r: Registry, key: EntryKey, now: int) {
    key !in r.leases || r.leases[key].expiresAt <= now
  }

  predicate Owns(r: Registry, key: EntryKey, id: ClaimId) {
    && key in r.leases && r.leases[key].claimId == id
    && key in r.models && r.models[key] == DOWNLOADING
  }

  function Grant(r: Registry, key: EntryKey, id: ClaimId, now: int): Registry {
    Registry(r.models[key := DOWNLOADING], r.leases[key := Lease(id, now + LEASE_DURATION)])
  }

  function TryClaim(r: Registry, key: EntryKey, id: ClaimId, now: int): (Registry, ClaimOutcome) {
    if key !in r.models then (Grant(r, key, id, now), Claimed)
    else if r.models[key] == DOWNLOADING && Expired(r, key, now) then (Grant(r, key, id, now), TookOver)
    else (r, AlreadyExists(r.models[key]))
  }

  function TryResetError(r: Registry, key: EntryKey, id: ClaimId, now: int): (Registry, bool) {
    if key in r.models && r.models[key] == ERROR then (Grant(r, key, id, now), true) else (r, false)
  }

  function RefreshClaim(r: Registry, key: EntryKey, id: ClaimId, now: int): (Registry, bool) {
    if Owns(r, key, id) then (r.(leases := r.leases[key := Lease(id, now + LEASE_DURATION)]), true) else (r, false)
  }

  function FinishClaim(r: Registry, key: EntryKey, id: ClaimId, status: ModelStatus): (Registry, bool) {
    if Owns(r, key, id) then (Registry(r.models[key := status], r.leases - {key}), true) else (r, false)
  }

  function DeleteModel(r: Registry, key: EntryKey): Registry {
    Registry(r.models - {key}, r.leases - {key})
  }

  // ----- What the operations do to ownership

  /** A lease exists only while its entry is being downloaded. */
  ghost predicate Consistent(r: Registry) {
    forall key | key in r.leases :: key in r.models && r.models[key] == DOWNLOADING
  }

  /** Every lease in `r'` was there before under the same claim, except possibly one new grant. */
  ghost predicate OnlyGrants(r: Registry, r': Registry, key: EntryKey, id: ClaimId) {
    forall k | k in r'.leases ::
      (k in r.leases && r'.leases[k].claimId == r.leases[k].claimId) || (k == key && r'.leases[k].claimId == id)
  }

  ghost predicate GrantsNothing(r: Registry, r': Registry) {
    forall k | k in r'.leases :: k in r.leases && r'.leases[k].claimId == r.leases[k].claimId
  }

  lemma {:induction false} ClaimGrants(r: Registry, key: EntryKey, id: ClaimId, now: int)
    ensures OnlyGrants(r, TryClaim(r, key, id, now).0, key, id)
    ensures OnlyGrants(r, TryResetError(r, key, id, now).0, key, id)
    ensures Consistent(r) ==> Consistent(TryClaim(r, key, id, now).0)
    ensures Consistent(r) ==> Consistent(TryResetError(r, key, id, now).0)
  {
  }

  lemma {:induction false} OthersGrantNothing(r: Registry, key: EntryKey, id: ClaimId, now: int, status: ModelStatus)
    ensures GrantsNothing(r, RefreshClaim(r, key, id, now).0)
    ensures GrantsNothing(r, FinishClaim(r, key, id, status).0)
    ensures GrantsNothing(r, DeleteModel(r, key))
    ensures Consistent(r) ==> Consistent(RefreshClaim(r, key, id, now).0)
    ensures Consistent(r) ==> Consistent(FinishClaim(r, key, id, status).0)
    ensures Consistent(r) ==> Consistent(DeleteModel(r, key))
  {
  }

  /** A claim that is granted is exclusive until it expires, is finished, or is deleted. */
  lemma {:induction false} ClaimIsExclusive(r: Registry, key: EntryKey, a: ClaimId, b: ClaimId, now: int, later: int)
    requires a != b && later < now + LEASE_DURATION
    requires TryClaim(r, key, a, now).1 in {Claimed, TookOver}
    ensures var r' := TryClaim(r, key, a, now).0;
            && Owns(r', key, a)
            && TryClaim(r', key, b, later) == (r', AlreadyExists(DOWNLOADING))
            && RefreshClaim(r', key, b, later) == (r', false)
            && FinishClaim(r', key, b, DOWNLOADED) == (r', false)
  {
  }

  /** Who may start a download: an entry is claimed if it has no record, taken over if it is downloading and its lease is gone or over, and otherwise left as it is. */
  lemma {:induction false} ClaimOutcomes(r: Registry, key: EntryKey, id: ClaimId, now: int)
    ensures var (r', outcome) := TryClaim(r, key, id, now);
            && (outcome == Claimed <==> key !in r.models)
            && (outcome == TookOver <==>
                  key in r.models && r.models[key] == DOWNLOADING && (key in r.leases ==> r.leases[key].expiresAt <= now))
            && (outcome.AlreadyExists? ==> r' == r && key in r.models && outcome.status == r.models[key])
            && (!outcome.AlreadyExists? ==> Owns(r', key, id) && r'.leases[key].expiresAt == now + LEASE_DURATION)
            && (forall k | k != key :: (k in r'.models <==> k in r.models) && (k in r.models ==> r'.models[k] == r.models[k]))
  {
  }

  /** A refresh by the owner moves the expiry: another may take over from one lease duration after it, and not before; the old owner is then fenced. */
  lemma {:induction false} RefreshDefersTakeover(r: Registry, key: EntryKey, a: ClaimId, b: ClaimId, now: int, later: int)
    requires a != b && Owns(r, key, a)
    ensures var refreshed := RefreshClaim(r, key, a, now);
            var (taken, outcome) := TryClaim(refreshed.0, key, b, later);
            && refreshed.1 && Owns(refreshed.0, key, a)
            && (outcome == TookOver <==> later >= now + LEASE_DURATION)
            && (outcome != TookOver ==> taken == refreshed.0)
            && (outcome == TookOver ==>
                  && Owns(taken, key, b)
                  && RefreshClaim(taken, key, a, later) == (taken, false)
                  && forall status :: FinishClaim(taken, key, a, status) == (taken, false))
  {
  }

  /** Finishing under the claim leaves exactly the status that was published, whichever it is, and no lease; an errored entry, and no other, can be reset. */
  lemma {:induction false} FinishPublishes(r: Registry, key: EntryKey, id: ClaimId, status: ModelStatus, other: ClaimId, now: int)
    requires Owns(r, key, id)
    ensures var (r', won) := FinishClaim(r, key, id, status);
            && won && key in r'.models && r'.models[key] == status && key !in r'.leases
            && (TryResetError(r', key, other, now).1 <==> status == ERROR)
            && (TryResetError(r', key, other, now).1 ==> Owns(TryResetError(r', key, other, now).0, key, other))
            && (forall k | k != key :: (k in r'.models <==> k in r.models) && (k in r.models ==> r'.models[k] == r.models[k]))
  {
  }

  // ----- The in-memory backend

  class InMemoryRegistryBackend {
    var models: map<EntryKey, ModelStatus>
    var leases: map<EntryKey, Lease>

    ghost function Abs(): Registry
      reads this
    {
      Registry(models, leases)
    }

    constructor ()
      ensures models == map[] && leases == map[]
      ensures Consistent(Abs())
    {
      models := map[];
      leases := map[];
    }

    method TryClaimForDownload(key: EntryKey, id: ClaimId, now: int) returns (outcome: ClaimOutcome)
      modifies this
      ensures (Abs(), outcome) == TryClaim(old(Abs()), key, id, now)
    {
      var leaseExpiresAt := now + LEASE_DURATION;
      var expired := key !in leases || leases[key].expiresAt <= now;
      if key in models && models[key] == DOWNLOADING && expired {
        leases := leases[key := Lease(id, leaseExpiresAt)];
        assert models[key := DOWNLOADING] == models;
        return TookOver;
      } else if key in models {
        return AlreadyExists(models[key]);
      } else {
        models := models[key := DOWNLOADING];
        leases := leases[key := Lease(id, leaseExpiresAt)];
        return Claimed;
      }
    }

    method TryResetErrorForRetry(key: EntryKey, id: ClaimId, now: int) returns (won: bool)
      modifies this
      ensures (Abs(), won) == TryResetError(old(Abs()), key, id, now)
    {
      if key in models && models[key] == ERROR {
        models := models[key := DOWNLOADING];
        leases := leases[key := Lease(id, now + LEASE_DURATION)];
        return true;
      }
      return false;
    }

    method RefreshDownloadClaim(key: EntryKey, id: ClaimId, now: int) returns (won: bool)
      modifies this
      ensures (Abs(), won) == RefreshClaim(old(Abs()), key, id, now)
    {
      var ownsClaim := key in leases && leases[key].claimId == id;
      if !ownsClaim || key !in models || models[key] != DOWNLOADING {
        return false;
      }
      leases := leases[key := leases[key].(expiresAt := now + LEASE_DURATION)];
      return true;
    }

    method FinishDownloadClaim(key: EntryKey, id: ClaimId, status: ModelStatus) returns (won: bool)
      modifies this
      ensures (Abs(), won) == FinishClaim(old(Abs()), key, id, status)
    {
      var ownsClaim := key in leases && leases[key].claimId == id;
      if !ownsClaim || key !in models || models[key] != DOWNLOADING {
        return false;
      }
      models := models[key := status];
      leases := leases - {key};
      return true;
    }

    method Delete(key: EntryKey)
      modifies this
      ensures Abs() == DeleteModel(old(Abs()), key)
    {
      models := models - {key};
      leases := leases - {key};
    }
  }
}
