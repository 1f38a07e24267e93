/** Who controls a path: the tables of ownership roots and delegations, the
    guards on their rows, and the longest-prefix query against walking up the
    path one parent at a time. */
module NamespaceOwnership {
  import opened Shared
  import opened Uuids
  import opened Namespaces
  import PublisherStates

  datatype Namespace = Namespace(id: Uuid, path: string, owner: Uuid, createdAt: Instant)

  /** A live claim: an ownership root or an active delegation. */
  datatype Claim = Claim(prefix: string, publisher: Uuid)

  /** One prefix has at most one live claim. */
  ghost predicate UniqueClaims(claims: set<Claim>) {
    forall a, b | a in claims && b in claims && a.prefix == b.prefix :: a == b
  }

  ghost predicate Claimed(claims: set<Claim>, path: string) {
    exists c :: c in claims && c.prefix == path
  }

  // ---------------------------------------------------------------- the reference: walking up

  /** The first claim met walking from the path up through its parents. */
  ghost function WalkUp(claims: set<Claim>, path: string): (r: Option<Claim>)
    ensures r.Some? ==> r.value in claims
    decreases |path|
  {
    if Claimed(claims, path) then
      var c :| c in claims && c.prefix == path;
      Some(c)
    else if LastSlash(path) < 0 then None
    else WalkUp(claims, Parent(path))
  }

  /** What the query selects: a covering claim no covering claim is longer than. */
  ghost predicate Controls(claims: set<Claim>, path: string, c: Claim) {
    && c in claims && Covers(c.prefix, path)
    && forall d | d in claims && Covers(d.prefix, path) :: |d.prefix| <= |c.prefix|
  }

  /** The longest covering claim is the first one met walking up, and one is found exactly when one covers. */
  lemma {:induction false} LongestIsNearest(claims: set<Claim>, path: string, c: Claim)
    requires UniqueClaims(claims)
    ensures WalkUp(claims, path) == Some(c) <==> Controls(claims, path, c)
    ensures WalkUp(claims, path).None? <==> forall d | d in claims :: !Covers(d.prefix, path)
    decreases |path|
  {
    forall d | d in claims
      ensures Covers(d.prefix, path) <==> d.prefix == path || (LastSlash(path) >= 0 && Covers(d.prefix, Parent(path)))
      ensures Covers(d.prefix, path) ==> |d.prefix| <= |path|
    {
      CoversThroughParent(d.prefix, path);
    }
    if Claimed(claims, path) {
      var top := WalkUp(claims, path).value;
      assert Covers(top.prefix, path);
      if Controls(claims, path, c) { CoversSameLength(c.prefix, top.prefix, path); }
    } else if LastSlash(path) >= 0 {
      LongestIsNearest(claims, Parent(path), c);
    }
  }

  /** Removing a claim moves only the paths it controlled: they lie at or below its prefix, and
      they go to the claim that controls the parent of that prefix, or to nobody. */
  lemma {:induction false} RemovalMovesOnlyItsPaths(claims: set<Claim>, gone: Claim, path: string)
    requires UniqueClaims(claims) && gone in claims
    ensures WalkUp(claims, path) != Some(gone) ==> WalkUp(claims - {gone}, path) == WalkUp(claims, path)
    ensures WalkUp(claims, path) == Some(gone) ==>
              && Covers(gone.prefix, path)
              && WalkUp(claims - {gone}, path) ==
                 if LastSlash(gone.prefix) < 0 then None else WalkUp(claims - {gone}, Parent(gone.prefix))
    decreases |path|
  {
    var rest := claims - {gone};
    assert Claimed(rest, path) <==> Claimed(claims, path) && path != gone.prefix;
    if Claimed(claims, path) {
      if path == gone.prefix { assert WalkUp(claims, path) == Some(gone); }
    } else if LastSlash(path) >= 0 {
      RemovalMovesOnlyItsPaths(claims, gone, Parent(path));
      CoversThroughParent(gone.prefix, path);
    }
  }

  // ---------------------------------------------------------------- the tables

  type PublisherState = PublisherStates.PublisherState

  datatype Tables = Tables(
    publishers: map<Uuid, PublisherState>, namespaces: map<Uuid, Namespace>, delegations: map<Uuid, Delegation>)

  function RootClaims(t: Tables): set<Claim> {
    set id | id in t.namespaces :: Claim(t.namespaces[id].path, t.namespaces[id].owner)
  }

  function DelegatedClaims(t: Tables): set<Claim> {
    set id | id in t.delegations && t.delegations[id].state.Active? ::
      Claim(t.delegations[id].childPrefix, t.delegations[id].publisherId)
  }

  function LiveClaims(t: Tables): set<Claim> {
    RootClaims(t) + DelegatedClaims(t)
  }

  predicate IsActive(t: Tables, id: Uuid) {
    id in t.delegations && t.delegations[id].state.Active?
  }

  predicate RootOk(t: Tables, id: Uuid)
    requires id in t.namespaces
  {
    var n := t.namespaces[id];
    n.id == id && ValidPath(n.path) && n.owner in t.publishers
  }

  predicate DelegationOk(t: Tables, id: Uuid)
    requires id in t.delegations
  {
    var d := t.delegations[id];
    && d.id == id && ValidDelegation(d) && d.publisherId in t.publishers
    && d.namespaceId in t.namespaces && t.namespaces[d.namespaceId].path + "/" <= d.childPrefix
  }

  /** Keys and foreign keys, and what the guards on inserts keep. */
  ghost predicate Inv(t: Tables) {
    RowsOk(t) && PrefixesDistinct(t) && NestedInv(t)
  }

  ghost predicate RowsOk(t: Tables) {
    && (forall id | id in t.namespaces :: RootOk(t, id))
    && (forall id | id in t.delegations :: DelegationOk(t, id))
  }

  /** No two roots, no two active delegations, and no root and active delegation have one path. */
  ghost predicate PrefixesDistinct(t: Tables) {
    && (forall a, b | a in t.namespaces && b in t.namespaces && a != b :: t.namespaces[a].path != t.namespaces[b].path)
    && (forall a, b | IsActive(t, a) && IsActive(t, b) && a != b ::
          t.delegations[a].childPrefix != t.delegations[b].childPrefix)
    && (forall a, b | a in t.namespaces && IsActive(t, b) :: t.namespaces[a].path != t.delegations[b].childPrefix)
  }

  /** The active delegations of one namespace lie one inside another. */
  ghost predicate NestedInv(t: Tables) {
    forall a, b | IsActive(t, a) && IsActive(t, b) && a != b
        && t.delegations[a].namespaceId == t.delegations[b].namespaceId ::
      Nested(t.delegations[a].childPrefix, t.delegations[b].childPrefix)
  }

  predicate Nested(p: string, q: string) {
    p + "/" <= q || q + "/" <= p
  }

  /** Rows stay good when tables grow, if the new or changed rows are good. */
  lemma RowsCarry(t: Tables, u: Tables)
    requires RowsOk(t) && t.publishers.Keys <= u.publishers.Keys
    requires forall id | id in t.namespaces :: id in u.namespaces && u.namespaces[id] == t.namespaces[id]
    requires forall id | id in u.namespaces :: id in t.namespaces || RootOk(u, id)
    requires forall id | id in u.delegations ::
               (id in t.delegations && u.delegations[id] == t.delegations[id]) || DelegationOk(u, id)
    ensures RowsOk(u)
  {
    forall id | id in u.namespaces ensures RootOk(u, id) {
      if id in t.namespaces { assert RootOk(t, id); }
    }
    forall id | id in u.delegations ensures DelegationOk(u, id) {
      if id in t.delegations && u.delegations[id] == t.delegations[id] { assert DelegationOk(t, id); }
    }
  }

  ghost predicate NoNewActive(t: Tables, u: Tables) {
    forall id | IsActive(u, id) :: IsActive(t, id) && u.delegations[id] == t.delegations[id]
  }

  lemma NestedShrinks(t: Tables, u: Tables)
    requires NestedInv(t) && NoNewActive(t, u)
    ensures NestedInv(u)
  {
  }

  lemma PublisherChangeKeepsInv(t: Tables, id: Uuid, state: PublisherState)
    requires Inv(t)
    ensures Inv(t.(publishers := t.publishers[id := state]))
  {
    var u := t.(publishers := t.publishers[id := state]);
    RowsCarry(t, u);
    NestedShrinks(t, u);
  }

  lemma NewRootKeepsInv(t: Tables, n: Namespace)
    requires Inv(t) && n.id !in t.namespaces && ValidPath(n.path) && n.owner in t.publishers && PrefixFree(t, n.path)
    ensures Inv(t.(namespaces := t.namespaces[n.id := n]))
  {
    var u := t.(namespaces := t.namespaces[n.id := n]);
    assert RootOk(u, n.id);
    RowsCarry(t, u);
    NestedShrinks(t, u);
    assert PrefixesDistinct(u);
  }

  /** What the insert guard and the keys together demand of a new delegation. */
  ghost predicate Insertable(t: Tables, d: Delegation) {
    d.id !in t.delegations && RowFits(t, d) && PrefixFree(t, d.childPrefix) && NestsWithSiblings(t, d)
  }

  predicate RowFits(t: Tables, d: Delegation) {
    && ValidDelegation(d) && d.publisherId in t.publishers
    && d.namespaceId in t.namespaces && t.namespaces[d.namespaceId].path + "/" <= d.childPrefix
  }

  ghost predicate PrefixFree(t: Tables, path: string) {
    && (forall id | id in t.namespaces :: t.namespaces[id].path != path)
    && (forall id | IsActive(t, id) :: t.delegations[id].childPrefix != path)
  }

  ghost predicate NestsWithSiblings(t: Tables, d: Delegation) {
    forall id | IsActive(t, id) && t.delegations[id].namespaceId == d.namespaceId ::
      Nested(t.delegations[id].childPrefix, d.childPrefix)
  }

  lemma NewDelegationKeepsInv(t: Tables, d: Delegation)
    requires Inv(t) && Insertable(t, d)
    ensures Inv(t.(delegations := t.delegations[d.id := d]))
  {
    var u := t.(delegations := t.delegations[d.id := d]);
    NewDelegationRow(t, d, u);
    NewDelegationDistinct(t, d, u);
    NewDelegationNests(t, d, u);
  }

  lemma NewDelegationRow(t: Tables, d: Delegation, u: Tables)
    requires RowsOk(t) && RowFits(t, d) && d.id !in t.delegations && u == t.(delegations := t.delegations[d.id := d])
    ensures RowsOk(u)
  {
    assert DelegationOk(u, d.id);
    RowsCarry(t, u);
  }

  lemma NewDelegationDistinct(t: Tables, d: Delegation, u: Tables)
    requires PrefixesDistinct(t) && PrefixFree(t, d.childPrefix) && d.id !in t.delegations
    requires u == t.(delegations := t.delegations[d.id := d])
    ensures PrefixesDistinct(u)
  {
    assert forall id | IsActive(u, id) :: id == d.id || IsActive(t, id);
  }

  lemma NewDelegationNests(t: Tables, d: Delegation, u: Tables)
    requires NestedInv(t) && d.id !in t.delegations && NestsWithSiblings(t, d)
    requires u == t.(delegations := t.delegations[d.id := d])
    ensures NestedInv(u)
  {
    forall a, b | IsActive(u, a) && IsActive(u, b) && a != b
        && u.delegations[a].namespaceId == u.delegations[b].namespaceId
      ensures Nested(u.delegations[a].childPrefix, u.delegations[b].childPrefix)
    {
      assert a == d.id || IsActive(t, a);
      assert b == d.id || IsActive(t, b);
    }
  }

  lemma RevocationKeepsInv(t: Tables, d: Delegation)
    requires Inv(t) && IsActive(t, d.id) && d == t.delegations[d.id].(state := Revoked, version := 2)
    ensures Inv(t.(delegations := t.delegations[d.id := d]))
  {
    var u := t.(delegations := t.delegations[d.id := d]);
    assert DelegationOk(t, d.id);
    assert DelegationOk(u, d.id);
    RowsCarry(t, u);
    assert NoNewActive(t, u);
    NestedShrinks(t, u);
    assert PrefixesDistinct(u);
  }

  /** Revoking a delegation removes exactly its claim. */
  lemma RevocationRemovesClaim(t: Tables, id: Uuid)
    requires Inv(t) && IsActive(t, id)
    ensures var d := t.delegations[id];
            LiveClaims(t.(delegations := t.delegations[id := d.(state := Revoked, version := 2)])) ==
            LiveClaims(t) - {Claim(d.childPrefix, d.publisherId)}
  {
    var d := t.delegations[id];
    var u := t.(delegations := t.delegations[id := d.(state := Revoked, version := 2)]);
    var gone := Claim(d.childPrefix, d.publisherId);
    DelegatedAfterRevocation(t, id);
    assert RootClaims(u) == RootClaims(t);
    assert gone !in RootClaims(t);
  }

  lemma DelegatedAfterRevocation(t: Tables, id: Uuid)
    requires Inv(t) && IsActive(t, id)
    ensures var d := t.delegations[id];
            DelegatedClaims(t.(delegations := t.delegations[id := d.(state := Revoked, version := 2)])) ==
            DelegatedClaims(t) - {Claim(d.childPrefix, d.publisherId)}
  {
    hide ValidPath, ValidDelegation, NestedInv, RowsOk;
    var d := t.delegations[id];
    var u := t.(delegations := t.delegations[id := d.(state := Revoked, version := 2)]);
    var gone := Claim(d.childPrefix, d.publisherId);
    forall a | IsActive(u, a) ensures IsActive(t, a) && a != id && u.delegations[a].childPrefix != gone.prefix { }
    forall a | IsActive(t, a) && a != id ensures IsActive(u, a) && u.delegations[a] == t.delegations[a] { }
  }

  /** No two live claims, of either kind, share a prefix. */
  lemma ClaimsAreUnique(t: Tables)
    requires Inv(t)
    ensures UniqueClaims(LiveClaims(t))
  {
    forall a, b | a in LiveClaims(t) && b in LiveClaims(t) && a.prefix == b.prefix ensures a == b {
      var x := ClaimRow(t, a);
      var y := ClaimRow(t, b);
    }
  }

  /** The row a live claim comes from. */
  lemma ClaimRow(t: Tables, c: Claim) returns (id: Uuid)
    requires c in LiveClaims(t)
    ensures || (c in RootClaims(t) && id in t.namespaces && c == Claim(t.namespaces[id].path, t.namespaces[id].owner))
            || (c in DelegatedClaims(t) && IsActive(t, id)
               && c == Claim(t.delegations[id].childPrefix, t.delegations[id].publisherId))
  {
    if c in RootClaims(t) {
      id :| id in t.namespaces && c == Claim(t.namespaces[id].path, t.namespaces[id].owner);
    } else {
      id :| IsActive(t, id) && c == Claim(t.delegations[id].childPrefix, t.delegations[id].publisherId);
    }
  }

  /** On a namespace's own path the root's claim controls, so the only owner ever returned there is the root's. */
  lemma RootControlsItsPath(t: Tables, id: Uuid)
    requires Inv(t) && id in t.namespaces
    ensures WalkUp(LiveClaims(t), t.namespaces[id].path) == Some(Claim(t.namespaces[id].path, t.namespaces[id].owner))
  {
    ClaimsAreUnique(t);
    var claim := Claim(t.namespaces[id].path, t.namespaces[id].owner);
    assert claim in RootClaims(t) && RootOk(t, id);
  }

  /** Revoking a delegation never leaves a path without a claim: the root it was cut from still covers it. */
  lemma RevocationNeverOrphans(t: Tables, id: Uuid, path: string)
    requires Inv(t) && IsActive(t, id) && Covers(t.delegations[id].childPrefix, path)
    ensures WalkUp(LiveClaims(t) - {Claim(t.delegations[id].childPrefix, t.delegations[id].publisherId)}, path).Some?
  {
    var d := t.delegations[id];
    assert DelegationOk(t, id);
    var gone := Claim(d.childPrefix, d.publisherId);
    var root := t.namespaces[d.namespaceId];
    var claim := Claim(root.path, root.owner);
    ClaimsAreUnique(t);
    assert claim in RootClaims(t) && claim in LiveClaims(t) - {gone};
    CoversTransitive(root.path, d.childPrefix, path);
    LongestIsNearest(LiveClaims(t) - {gone}, path, claim);
  }

  /** Revocation changes the controller only where the revoked delegation controlled, which is at or below
      its prefix; there control passes to the claim next up the path, which always exists. */
  lemma RevocationEffect(t: Tables, id: Uuid, path: string)
    requires Inv(t) && IsActive(t, id)
    ensures var d := t.delegations[id];
            var gone := Claim(d.childPrefix, d.publisherId);
            var u := t.(delegations := t.delegations[id := d.(state := Revoked, version := 2)]);
            var before, after := WalkUp(LiveClaims(t), path), WalkUp(LiveClaims(u), path);
            if before != Some(gone) then after == before
            else
              && Covers(gone.prefix, path) && LastSlash(gone.prefix) >= 0
              && after.Some? && after == WalkUp(LiveClaims(u), Parent(gone.prefix))
              && Covers(after.value.prefix, Parent(gone.prefix))
  {
    var d := t.delegations[id];
    var gone := Claim(d.childPrefix, d.publisherId);
    var u := t.(delegations := t.delegations[id := d.(state := Revoked, version := 2)]);
    ClaimsAreUnique(t);
    RevocationRemovesClaim(t, id);
    assert gone in DelegatedClaims(t);
    RemovalMovesOnlyItsPaths(LiveClaims(t), gone, path);
    if WalkUp(LiveClaims(t), path) == Some(gone) {
      RevocationNeverOrphans(t, id, path);
      var next := WalkUp(LiveClaims(u), path).value;
      LongestIsNearest(LiveClaims(u), Parent(gone.prefix), next);
    }
  }

  // ---------------------------------------------------------------- control, read off the rows

  /** A namespace's row, or an active delegation's, gives the prefix to the publisher. */
  ghost predicate Gives(t: Tables, prefix: string, publisher: Uuid) {
    || (exists id :: id in t.namespaces && t.namespaces[id].path == prefix && t.namespaces[id].owner == publisher)
    || (exists id ::
          && id in t.delegations && t.delegations[id].state.Active?
          && t.delegations[id].childPrefix == prefix && t.delegations[id].publisherId == publisher)
  }

  /** The publisher controls the path: some row gives it a prefix that is the path or lies above it, and no row gives
      anybody a longer one of which that is true. */
  ghost predicate Owns(t: Tables, path: string, publisher: Uuid) {
    exists prefix :: GivesNearest(t, path, prefix, publisher)
  }

  ghost predicate GivesNearest(t: Tables, path: string, prefix: string, publisher: Uuid) {
    && Gives(t, prefix, publisher) && (path == prefix || prefix + "/" <= path)
    && forall other, whoever | Gives(t, other, whoever) && (path == other || other + "/" <= path) :: |other| <= |prefix|
  }

  lemma GivesMeansClaim(t: Tables, prefix: string, publisher: Uuid)
    ensures Gives(t, prefix, publisher) <==> Claim(prefix, publisher) in LiveClaims(t)
  {
    if Claim(prefix, publisher) in LiveClaims(t) { var id := ClaimRow(t, Claim(prefix, publisher)); }
  }

  /** Walking up the live claims finds the owner that the rows name. */
  lemma OwnerIsNearest(t: Tables, path: string, publisher: Uuid)
    requires Inv(t)
    ensures Owns(t, path, publisher) <==>
              WalkUp(LiveClaims(t), path).Some? && WalkUp(LiveClaims(t), path).value.publisher == publisher
  {
    hide Inv, LiveClaims, Gives;
    var claims := LiveClaims(t);
    ClaimsAreUnique(t);
    forall prefix, whoever ensures Gives(t, prefix, whoever) <==> Claim(prefix, whoever) in claims {
      GivesMeansClaim(t, prefix, whoever);
    }
    if prefix :| GivesNearest(t, path, prefix, publisher) {
      var claim := Claim(prefix, publisher);
      assert forall d | d in claims && Covers(d.prefix, path) :: Gives(t, d.prefix, d.publisher);
      LongestIsNearest(claims, path, claim);
    }
    if WalkUp(claims, path).Some? && WalkUp(claims, path).value.publisher == publisher {
      var claim := WalkUp(claims, path).value;
      LongestIsNearest(claims, path, claim);
      assert GivesNearest(t, path, claim.prefix, publisher);
    }
  }

  /** A claim on a free prefix takes over exactly the paths at or below it that nothing nearer claims. */
  lemma AdditionMovesOnlyItsPaths(claims: set<Claim>, added: Claim, path: string)
    requires UniqueClaims(claims) && !Claimed(claims, added.prefix)
    ensures var before := WalkUp(claims, path);
            WalkUp(claims + {added}, path) ==
            if Covers(added.prefix, path) && (before.None? || |before.value.prefix| < |added.prefix|)
            then Some(added) else before
  {
    hide WalkUp;
    var before, all := WalkUp(claims, path), claims + {added};
    LongestIsNearest(all, path, added);
    LongestIsNearest(claims, path, added);
    if before.Some? {
      LongestIsNearest(claims, path, before.value);
      LongestIsNearest(all, path, before.value);
      if Covers(added.prefix, path) && |before.value.prefix| == |added.prefix| {
        CoversSameLength(before.value.prefix, added.prefix, path);
      }
    }
  }

  lemma CreationAddsClaim(t: Tables, d: Delegation)
    requires Insertable(t, d) && d.state.Active?
    ensures LiveClaims(t.(delegations := t.delegations[d.id := d]))
         == LiveClaims(t) + {Claim(d.childPrefix, d.publisherId)}
    ensures !Claimed(LiveClaims(t), d.childPrefix)
  {
    hide ValidPath, ValidUuid, ValidDelegation, NestsWithSiblings;
    var u := t.(delegations := t.delegations[d.id := d]);
    var added := Claim(d.childPrefix, d.publisherId);
    if c :| c in LiveClaims(t) && c.prefix == d.childPrefix { var id := ClaimRow(t, c); }
    assert RootClaims(u) == RootClaims(t);
    forall c | c in DelegatedClaims(t) + {added} ensures c in DelegatedClaims(u) {
      if c == added {
        assert IsActive(u, d.id) && u.delegations[d.id] == d;
      } else {
        var id :| id in t.delegations && t.delegations[id].state.Active?
                  && c == Claim(t.delegations[id].childPrefix, t.delegations[id].publisherId);
        assert id in u.delegations && u.delegations[id] == t.delegations[id];
      }
    }
    forall c | c in DelegatedClaims(u) && c != added ensures c in DelegatedClaims(t) {
      var id :| id in u.delegations && u.delegations[id].state.Active?
                && c == Claim(u.delegations[id].childPrefix, u.delegations[id].publisherId);
      assert id != d.id && id in t.delegations;
    }
  }

  /** A new delegation takes over exactly the paths at or below its prefix that nothing nearer claims, for its
      publisher, and changes nothing elsewhere. */
  lemma CreationEffect(t: Tables, d: Delegation, path: string)
    requires Inv(t) && Insertable(t, d) && d.state.Active?
    ensures var before := WalkUp(LiveClaims(t), path);
            WalkUp(LiveClaims(t.(delegations := t.delegations[d.id := d])), path) ==
            if (path == d.childPrefix || d.childPrefix + "/" <= path)
               && (before.None? || |before.value.prefix| < |d.childPrefix|)
            then Some(Claim(d.childPrefix, d.publisherId)) else before
  {
    hide LiveClaims, Inv, Insertable, WalkUp;
    ClaimsAreUnique(t);
    CreationAddsClaim(t, d);
    AdditionMovesOnlyItsPaths(LiveClaims(t), Claim(d.childPrefix, d.publisherId), path);
  }
}
