/** The guards on new namespaces and delegations, as the triggers and indexes write them, and what they mean. */
module NamespaceGuards {
  import opened Shared
  import opened Uuids
  import opened Namespaces
  import opened NamespaceOwnership
  import Like
  import PublisherStates

  const CONFLICT := Error(Conflict, "namespace.delegation_conflict")
  const INVALID_DELEGATION := Error(Conflict, "namespace.invalid_delegation")
  const ROOT_CONFLICT := Error(Conflict, "namespace.conflict")
  const OWNER_NOT_VERIFIED := Error(Conflict, "namespace.owner_not_verified")

  /** The guard's NOT LIKE condition, positively. */
  predicate LikeBelow(prefix: string, path: string) {
    Like.Matches(prefix + "/%", path, Like.Same)
  }

  predicate RootAt(t: Tables, path: string) {
    exists id :: id in t.namespaces && t.namespaces[id].path == path
  }

  predicate DelegationAt(t: Tables, path: string) {
    exists id :: id in t.delegations && t.delegations[id].state.Active? && t.delegations[id].childPrefix == path
  }

  /** A path is free exactly when no live claim has it. */
  lemma FreeMeansUnclaimed(t: Tables, path: string)
    ensures PrefixFree(t, path) <==> !RootAt(t, path) && !DelegationAt(t, path)
    ensures PrefixFree(t, path) <==> !Claimed(LiveClaims(t), path)
  {
    if id :| id in t.namespaces && t.namespaces[id].path == path {
      assert Claim(t.namespaces[id].path, t.namespaces[id].owner) in RootClaims(t);
    }
    assert DelegationAt(t, path) <==> exists id :: IsActive(t, id) && t.delegations[id].childPrefix == path;
    if id :| IsActive(t, id) && t.delegations[id].childPrefix == path {
      assert Claim(t.delegations[id].childPrefix, t.delegations[id].publisherId) in DelegatedClaims(t);
    }
    if c :| c in LiveClaims(t) && c.prefix == path {
      var id := ClaimRow(t, c);
    }
  }

  predicate BelowItsRoot(t: Tables, value: Delegation) {
    value.namespaceId in t.namespaces && LikeBelow(t.namespaces[value.namespaceId].path, value.childPrefix)
  }

  predicate AmbiguousSibling(t: Tables, value: Delegation) {
    exists id ::
      && id in t.delegations && t.delegations[id].namespaceId == value.namespaceId && t.delegations[id].state.Active?
      && !LikeBelow(t.delegations[id].childPrefix, value.childPrefix)
      && !LikeBelow(value.childPrefix, t.delegations[id].childPrefix)
  }

  /** The insert guard, written with LIKE, says exactly that the new prefix lies below its root and
      nests with its active siblings. */
  lemma GuardMeansNested(t: Tables, value: Delegation)
    requires Inv(t) && ValidDelegation(value)
    ensures BelowItsRoot(t, value) <==>
              value.namespaceId in t.namespaces && t.namespaces[value.namespaceId].path + "/" <= value.childPrefix
    ensures !AmbiguousSibling(t, value) <==> NestsWithSiblings(t, value)
  {
    if value.namespaceId in t.namespaces {
      assert RootOk(t, value.namespaceId);
      LikeMeansCovers(t.namespaces[value.namespaceId].path, value.childPrefix);
    }
    forall id | IsActive(t, id)
      ensures LikeBelow(t.delegations[id].childPrefix, value.childPrefix)
              || LikeBelow(value.childPrefix, t.delegations[id].childPrefix)
              <==> Nested(t.delegations[id].childPrefix, value.childPrefix)
    {
      assert DelegationOk(t, id);
      LikeMeansCovers(t.delegations[id].childPrefix, value.childPrefix);
      LikeMeansCovers(value.childPrefix, t.delegations[id].childPrefix);
    }
  }

  predicate IsVerified(t: Tables, publisher: Uuid) {
    publisher in t.publishers && t.publishers[publisher] == PublisherStates.Verified
  }

  /** Why the database refuses a new delegation: the insert trigger's conditions in their order, then the keys. */
  function InsertRefusal(t: Tables, value: Delegation): Option<Error> {
    if !BelowItsRoot(t, value) then Some(INVALID_DELEGATION)
    else if RootAt(t, value.childPrefix) then Some(CONFLICT)
    else if AmbiguousSibling(t, value) || !IsVerified(t, value.publisherId) then Some(INVALID_DELEGATION)
    else if value.id in t.delegations || DelegationAt(t, value.childPrefix) then Some(CONFLICT)
    else None
  }

  /** Why it refuses a new namespace. */
  function RootRefusal(t: Tables, value: Namespace): Option<Error> {
    if DelegationAt(t, value.path) then Some(ROOT_CONFLICT)
    else if !IsVerified(t, value.owner) then Some(OWNER_NOT_VERIFIED)
    else if value.id in t.namespaces || RootAt(t, value.path) then Some(ROOT_CONFLICT)
    else None
  }

  /** The reasons in their order: an active delegation has the path, the owner is not verified, another namespace has it
      or the identifier is taken. */
  lemma RootRefusalSays(t: Tables, value: Namespace)
    ensures RootRefusal(t, value) ==
            if exists id ::
              id in t.delegations && t.delegations[id].state.Active? && t.delegations[id].childPrefix == value.path
            then Some(Error(Conflict, "namespace.conflict"))
            else if value.owner !in t.publishers || !t.publishers[value.owner].Verified?
            then Some(Error(Conflict, "namespace.owner_not_verified"))
            else if value.id in t.namespaces || exists id :: id in t.namespaces && t.namespaces[id].path == value.path
            then Some(Error(Conflict, "namespace.conflict"))
            else None
  {
  }

  /** A delegation is let in exactly when it fits the invariant of the tables and its recipient is verified. */
  lemma RefusalIsExact(t: Tables, value: Delegation)
    requires Inv(t) && ValidDelegation(value)
    ensures InsertRefusal(t, value).None? <==> Insertable(t, value) && IsVerified(t, value.publisherId)
  {
    hide ValidPath, ValidUuid, Like.Matches;
    GuardMeansNested(t, value);
    FreeMeansUnclaimed(t, value.childPrefix);
  }

  /** A namespace is let in exactly when its path is free, its identifier new and its owner verified. */
  lemma RootRefusalIsExact(t: Tables, value: Namespace)
    ensures RootRefusal(t, value).None? <==>
              PrefixFree(t, value.path) && value.id !in t.namespaces && IsVerified(t, value.owner)
  {
    FreeMeansUnclaimed(t, value.path);
  }
}
