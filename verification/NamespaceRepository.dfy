/** The namespace and delegation repository: inserts and revocations with the
    database's guards, and the owner resolution query. `outage` says
    where the database fails a call. */
module NamespaceRepository {
  import opened Shared
  import opened Uuids
  import opened Namespaces
  import opened NamespaceOwnership
  import opened NamespaceGuards
  import PublisherStates

  const UNAVAILABLE := Error(Unavailable, "namespace.persistence_unavailable")

  class Repository {
    const tenant: Uuid
    var publishers: map<Uuid, PublisherState>
    var namespaces: map<Uuid, Namespace>
    var delegations: map<Uuid, Delegation>

    ghost function State(): Tables
      reads this
    {
      Tables(publishers, namespaces, delegations)
    }

    constructor (tenant: Uuid, publishers: map<Uuid, PublisherState>)
      ensures this.tenant == tenant && State() == Tables(publishers, map[], map[]) && Inv(State())
    {
      this.tenant := tenant;
      this.publishers := publishers;
      namespaces, delegations := map[], map[];
    }

    /** Any change of a publisher's state, or a new publisher. */
    method SetPublisher(id: Uuid, state: PublisherState)
      requires Inv(State())
      modifies this
      ensures Inv(State()) && State() == old(State()).(publishers := old(publishers)[id := state])
    {
      PublisherChangeKeepsInv(State(), id, state);
      publishers := publishers[id := state];
    }

    /** Inserts an ownership root: a new path, no active delegation on it, a verified owner. */
    method CreateNamespace(value: Namespace, outage: Outage) returns (r: Status)
      requires Inv(State()) && ValidPath(value.path)
      modifies this
      ensures Inv(State())
      ensures var t, refusal := old(State()), RootRefusal(old(State()), value);
              var e := if !ValidUuid(tenant) then Some(Error(Invalid, "namespace.invalid_tenant"))
                       else Hindrance(outage, UNAVAILABLE, refusal);
              && r == (if e.None? then Done else Failed(e.value))
              && State() == (if ValidUuid(tenant) && Commits(outage) && refusal.None?
                             then t.(namespaces := t.namespaces[value.id := value]) else t)
              && (refusal.None? <==>
                    IsVerified(t, value.owner) && value.id !in t.namespaces && PrefixFree(t, value.path))
    {
      RootRefusalIsExact(State(), value);
      if !ValidUuid(tenant) { return Failed(Error(Invalid, "namespace.invalid_tenant")); }
      if outage.Opening? { return Failed(TRANSACTION_UNAVAILABLE); }
      if outage.Deciding? { return Failed(UNAVAILABLE); }
      var tables := Tables(publishers, namespaces, delegations);
      if DelegationAt(tables, value.path) { return Failed(ROOT_CONFLICT); }
      if !IsVerified(tables, value.owner) { return Failed(OWNER_NOT_VERIFIED); }
      if value.id in namespaces || RootAt(tables, value.path) { return Failed(ROOT_CONFLICT); }
      if outage.Auditing? { return Failed(AUDIT_UNAVAILABLE); }
      if outage.Finishing? { return Failed(UNAVAILABLE); }
      NewRootKeepsInv(tables, value);
      namespaces := namespaces[value.id := value];
      r := if outage.Nowhere? then Done else Failed(UNAVAILABLE);
    }

    /** Inserts an active delegation. It must lie strictly below its namespace, nest with the namespace's other
        active delegations, meet no live claim on its prefix, and go to a verified publisher. */
    method CreateDelegation(value: Delegation, outage: Outage) returns (r: Status)
      requires Inv(State()) && ValidDelegation(value) && value.state.Active?
      modifies this
      ensures Inv(State())
      ensures var t, refusal := old(State()), InsertRefusal(old(State()), value);
              var e := if !ValidUuid(tenant) then Some(Error(Invalid, "namespace.invalid_tenant"))
                       else Hindrance(outage, UNAVAILABLE, refusal);
              && r == (if e.None? then Done else Failed(e.value))
              && State() == (if ValidUuid(tenant) && Commits(outage) && refusal.None?
                             then t.(delegations := t.delegations[value.id := value]) else t)
              && (refusal.None? <==> Insertable(t, value) && IsVerified(t, value.publisherId))
    {
      hide Insertable, BelowItsRoot, AmbiguousSibling, RootAt, DelegationAt, ValidDelegation, Inv, ValidUuid;
      RefusalIsExact(State(), value);
      if !ValidUuid(tenant) { return Failed(Error(Invalid, "namespace.invalid_tenant")); }
      if outage.Opening? { return Failed(TRANSACTION_UNAVAILABLE); }
      if outage.Deciding? { return Failed(UNAVAILABLE); }
      var tables := Tables(publishers, namespaces, delegations);
      if !BelowItsRoot(tables, value) { return Failed(INVALID_DELEGATION); }
      if RootAt(tables, value.childPrefix) { return Failed(CONFLICT); }
      if AmbiguousSibling(tables, value) { return Failed(INVALID_DELEGATION); }
      if !IsVerified(tables, value.publisherId) { return Failed(INVALID_DELEGATION); }
      if value.id in delegations || DelegationAt(tables, value.childPrefix) { return Failed(CONFLICT); }
      if outage.Auditing? { return Failed(AUDIT_UNAVAILABLE); }
      if outage.Finishing? { return Failed(UNAVAILABLE); }
      NewDelegationKeepsInv(tables, value);
      delegations := delegations[value.id := value];
      r := if outage.Nowhere? then Done else Failed(UNAVAILABLE);
    }

    /** Revokes an active delegation whose version the caller knows. */
    method Revoke(
        id: Uuid, expectedVersion: int, reason: string, explanation: string, at: Nanos, outage: Outage)
      returns (r: Result<Delegation>)
      requires Inv(State())
      modifies this
      ensures Inv(State())
      ensures var t, decided := old(State()), Decided(old(State()), id, expectedVersion, explanation, at);
              var valid := ValidUuid(id) && expectedVersion >= 1 && reason != "" && at != ZERO_NANOS;
              && r == (if !valid then Err(Error(Invalid, "namespace.invalid_delegation_revocation"))
                       else if !ValidUuid(tenant) then Err(Error(Invalid, "namespace.invalid_tenant"))
                       else Carried(outage, UNAVAILABLE, decided))
              && State() == (if valid && ValidUuid(tenant) && Commits(outage) && decided.Ok?
                             then t.(delegations := t.delegations[id := decided.value]) else t)
              && (valid && decided.Ok? <==>
                    && ValidUuid(id) && reason != "" && at != ZERO_NANOS && expectedVersion == 1 && IsActive(t, id)
                    && t.delegations[id].createdAt <= StoredTime(at) && RevocationText(explanation))
    {
      hide ValidUuid, ValidDelegation, Inv, RevocationText;
      RevocationIsExact(State(), id, expectedVersion, explanation, at);
      if !ValidUuid(id) || expectedVersion < 1 || reason == "" || at == ZERO_NANOS {
        return Err(Error(Invalid, "namespace.invalid_delegation_revocation"));
      }
      if !ValidUuid(tenant) { return Err(Error(Invalid, "namespace.invalid_tenant")); }
      if outage.Opening? { return Err(TRANSACTION_UNAVAILABLE); }
      if outage.Deciding? { return Err(UNAVAILABLE); }
      if id !in delegations { return Err(Error(NotFound, "namespace.delegation_not_found")); }
      var current := delegations[id];
      if current.version != expectedVersion { return Err(Error(Conflict, "namespace.stale_delegation_version")); }
      var updated := RevokeDelegation(current, reason, explanation, at);
      if updated.None? { return Err(Error(Conflict, "namespace.invalid_delegation_transition")); }
      RevocationKeepsInv(State(), updated.value);
      if outage.Auditing? { return Err(AUDIT_UNAVAILABLE); }
      if outage.Finishing? { return Err(UNAVAILABLE); }
      delegations := delegations[id := updated.value];
      r := if outage.Nowhere? then Ok(updated.value) else Err(UNAVAILABLE);
    }

    /** Some claim covers the path, and the publisher of the nearest one is verified. */
    ghost predicate IsControlled(path: string)
      requires Inv(State())
      reads this
    {
      var nearest := WalkUp(LiveClaims(State()), path);
      nearest.Some? && IsVerified(State(), nearest.value.publisher)
    }

    /** The publisher that may publish at a path: the nearest claim walking up from it, if that publisher is
        verified. An unverified controller is refused; no farther claim is tried. */
    method ResolveOwner(path: string, outage: Outage) returns (r: Result<Uuid>)
      requires !outage.Auditing? && Inv(State())
      ensures r.Ok? <==>
                && ValidPath(path) && ValidUuid(tenant) && outage.Nowhere?
                && IsControlled(path)
      ensures r.Ok? ==> r.value == WalkUp(LiveClaims(State()), path).value.publisher
      // Read off the rows: the owner returned is the one whose row gives it the longest prefix at or above the path.
      ensures r.Ok? ==> Owns(State(), path, r.value) && r.value in publishers && publishers[r.value].Verified?
      ensures forall publisher | Owns(State(), path, publisher) ::
                (r.Ok? <==>
                   && ValidPath(path) && ValidUuid(tenant) && outage.Nowhere?
                   && publisher in publishers && publishers[publisher].Verified?)
      ensures r.Err? ==>
                r.error ==
                  if !ValidPath(path) then Error(Invalid, "namespace.invalid_path")
                  else if !ValidUuid(tenant) then Error(Invalid, "namespace.invalid_tenant")
                  else if outage.Opening? then TRANSACTION_UNAVAILABLE
                  else if outage.Deciding? || (!outage.Nowhere? && IsControlled(path)) then UNAVAILABLE
                  else Error(Forbidden, "namespace.publication_not_authorized")
    {
      hide Owns;
      forall publisher
        ensures Owns(State(), path, publisher) <==>
                  && WalkUp(LiveClaims(State()), path).Some?
                  && WalkUp(LiveClaims(State()), path).value.publisher == publisher
      {
        OwnerIsNearest(State(), path, publisher);
      }
      if !ValidPath(path) { return Err(Error(Invalid, "namespace.invalid_path")); }
      if !ValidUuid(tenant) { return Err(Error(Invalid, "namespace.invalid_tenant")); }
      if outage.Opening? { return Err(TRANSACTION_UNAVAILABLE); }
      if outage.Deciding? { return Err(UNAVAILABLE); }
      var tables := Tables(publishers, namespaces, delegations);
      var candidates := RootCandidates(tables, path) + DelegatedCandidates(tables, path);
      CandidatesCover(State(), path);
      assert forall c | c in LiveClaims(State()) && Covers(c.prefix, path) :: c in candidates;
      if candidates == {} {
        NothingControls(State(), path);
        return Err(Error(Forbidden, "namespace.publication_not_authorized"));
      }
      ghost var longest := LongestExists(candidates);
      var controlling :| controlling in candidates && forall d | d in candidates :: |d.prefix| <= |controlling.prefix|;
      ClaimsAreUnique(State());
      LongestIsNearest(LiveClaims(State()), path, controlling);
      if publishers[controlling.publisher] != PublisherStates.Verified {
        return Err(Error(Forbidden, "namespace.publication_not_authorized"));
      }
      r := if outage.Nowhere? then Ok(controlling.publisher) else Err(UNAVAILABLE);
    }

    /** Publication at a path is authorized for exactly one publisher: the verified controller of the nearest claim. */
    method AuthorizePublication(publisherId: Uuid, path: string, outage: Outage) returns (r: Status)
      requires !outage.Auditing? && Inv(State())
      ensures r.Done? <==>
                && ValidUuid(publisherId) && ValidPath(path) && ValidUuid(tenant) && outage.Nowhere?
                && IsControlled(path) && WalkUp(LiveClaims(State()), path).value.publisher == publisherId
      ensures r.Done? <==>
                && ValidUuid(publisherId) && ValidPath(path) && ValidUuid(tenant) && outage.Nowhere?
                && Owns(State(), path, publisherId) && publisherId in publishers && publishers[publisherId].Verified?
      ensures r.Failed? ==>
                r.error ==
                  if !ValidUuid(publisherId) || !ValidPath(path)
                  then Error(Invalid, "namespace.invalid_publication_request")
                  else if !ValidUuid(tenant) then Error(Invalid, "namespace.invalid_tenant")
                  else if outage.Opening? then TRANSACTION_UNAVAILABLE
                  else if outage.Deciding? || (!outage.Nowhere? && IsControlled(path)) then UNAVAILABLE
                  else Error(Forbidden, "namespace.publication_not_authorized")
    {
      hide Owns;
      OwnerIsNearest(State(), path, publisherId);
      if !ValidUuid(publisherId) || !ValidPath(path) {
        return Failed(Error(Invalid, "namespace.invalid_publication_request"));
      }
      var owner := ResolveOwner(path, outage);
      if owner.Err? { return Failed(owner.error); }
      if owner.value != publisherId { return Failed(Error(Forbidden, "namespace.publication_not_authorized")); }
      r := Done;
    }
  }

  /** The revoked delegation, or the first reason in the tables why there is none. */
  ghost function Decided(
      t: Tables, id: Uuid, expectedVersion: int, explanation: string, at: Nanos): Result<Delegation>
  {
    if id !in t.delegations then Err(Error(NotFound, "namespace.delegation_not_found"))
    else if t.delegations[id].version != expectedVersion
    then Err(Error(Conflict, "namespace.stale_delegation_version"))
    else if !t.delegations[id].state.Active? || ReadBack(t.delegations[id].createdAt) > at
            || !RevocationText(explanation)
    then Err(Error(Conflict, "namespace.invalid_delegation_transition"))
    else Ok(t.delegations[id].(state := DelegationState.Revoked, version := 2))
  }

  /** A delegation can be revoked exactly when it is active and the caller expects its first version, gives a time not
      before its creation and a text to explain it. */
  lemma RevocationIsExact(t: Tables, id: Uuid, expectedVersion: int, explanation: string, at: Nanos)
    requires Inv(t)
    ensures Decided(t, id, expectedVersion, explanation, at).Ok? <==>
              && expectedVersion == 1 && IsActive(t, id)
              && t.delegations[id].createdAt <= StoredTime(at) && RevocationText(explanation)
    ensures IsActive(t, id) ==> t.delegations[id].id == id && t.delegations[id].version == 1
  {
    if id in t.delegations { assert DelegationOk(t, id); }
  }

  function RootCandidates(t: Tables, path: string): set<Claim> {
    set id | id in t.namespaces && t.namespaces[id].owner in t.publishers && LikeCovers(t.namespaces[id].path, path) ::
      Claim(t.namespaces[id].path, t.namespaces[id].owner)
  }

  function DelegatedCandidates(t: Tables, path: string): set<Claim> {
    set id | id in t.delegations && t.delegations[id].publisherId in t.publishers && t.delegations[id].state.Active?
             && LikeCovers(t.delegations[id].childPrefix, path) ::
      Claim(t.delegations[id].childPrefix, t.delegations[id].publisherId)
  }

  /** The query's candidates are exactly the live claims that cover the path. */
  lemma CandidatesCover(t: Tables, path: string)
    requires Inv(t)
    ensures RootCandidates(t, path) + DelegatedCandidates(t, path)
         == set c | c in LiveClaims(t) && Covers(c.prefix, path)
    ensures forall c | c in LiveClaims(t) :: c.publisher in t.publishers
  {
    RootCandidatesCover(t, path);
    DelegatedCandidatesCover(t, path);
  }

  lemma RootCandidatesCover(t: Tables, path: string)
    requires Inv(t)
    ensures RootCandidates(t, path) == set c | c in RootClaims(t) && Covers(c.prefix, path)
    ensures forall c | c in RootClaims(t) :: c.publisher in t.publishers
  {
    forall id | id in t.namespaces
      ensures LikeCovers(t.namespaces[id].path, path) <==> Covers(t.namespaces[id].path, path)
      ensures t.namespaces[id].owner in t.publishers
    {
      assert RootOk(t, id);
      LikeMeansCovers(t.namespaces[id].path, path);
    }
  }

  lemma DelegatedCandidatesCover(t: Tables, path: string)
    requires Inv(t)
    ensures DelegatedCandidates(t, path) == set c | c in DelegatedClaims(t) && Covers(c.prefix, path)
    ensures forall c | c in DelegatedClaims(t) :: c.publisher in t.publishers
  {
    forall id | id in t.delegations
      ensures LikeCovers(t.delegations[id].childPrefix, path) <==> Covers(t.delegations[id].childPrefix, path)
      ensures t.delegations[id].publisherId in t.publishers
    {
      assert DelegationOk(t, id);
      LikeMeansCovers(t.delegations[id].childPrefix, path);
    }
  }

  lemma NothingControls(t: Tables, path: string)
    requires Inv(t) && forall c | c in LiveClaims(t) :: !Covers(c.prefix, path)
    ensures WalkUp(LiveClaims(t), path).None?
  {
    ClaimsAreUnique(t);
    LongestIsNearest(LiveClaims(t), path, Claim(path, seq(16, _ => 0)));
  }

  lemma {:induction false} LongestExists(claims: set<Claim>) returns (c: Claim)
    requires claims != {}
    ensures c in claims && forall d | d in claims :: |d.prefix| <= |c.prefix|
    decreases |claims|
  {
    c :| c in claims;
    if claims != {c} {
      var other := LongestExists(claims - {c});
      if |other.prefix| > |c.prefix| { c := other; }
    }
  }
}
