/** Namespace paths and delegations as domain values. */
module Namespaces {
  import opened Shared
  import opened Uuids
  import Like

  const MAX_PATH_BYTES := 255

  // ---------------------------------------------------------------- paths

  /** One path segment of the pattern: starts and ends alphanumeric, hyphens inside. */
  predicate Segment(s: string) {
    && s != "" && LowerAlphanumeric(s[0]) && LowerAlphanumeric(s[|s| - 1])
    && forall i | 0 <= i < |s| :: LowerAlphanumeric(s[i]) || s[i] == '-'
  }

  function FirstSlash(p: string): (i: nat)
    ensures i <= |p| && (i < |p| ==> p[i] == '/') && forall k | 0 <= k < i :: p[k] != '/'
  {
    if p == "" || p[0] == '/' then 0 else 1 + FirstSlash(p[1..])
  }

  /** The path pattern: segments joined by single slashes. */
  predicate PathGrammar(p: string)
    decreases |p|
  {
    var n := FirstSlash(p);
    Segment(p[..n]) && (n == |p| || PathGrammar(p[n + 1..]))
  }

  predicate ValidPath(p: string) {
    |p| <= MAX_PATH_BYTES && PathGrammar(p)
  }

  /** The grammar told character by character. */
  predicate LocallyWellFormed(p: string) {
    && p != ""
    && forall i | 0 <= i < |p| ::
         || LowerAlphanumeric(p[i])
         || (0 < i < |p| - 1 && p[i] == '-')
         || (0 < i < |p| - 1 && p[i] == '/' && LowerAlphanumeric(p[i - 1]) && LowerAlphanumeric(p[i + 1]))
  }

  lemma {:induction false} GrammarIsLocal(p: string)
    requires PathGrammar(p)
    ensures LocallyWellFormed(p)
    decreases |p|
  {
    var n := FirstSlash(p);
    if n < |p| {
      var rest := p[n + 1..];
      GrammarIsLocal(rest);
      forall i | 0 <= i < |p|
        ensures LowerAlphanumeric(p[i]) || (0 < i < |p| - 1 && p[i] == '-')
                || (0 < i < |p| - 1 && p[i] == '/' && LowerAlphanumeric(p[i - 1]) && LowerAlphanumeric(p[i + 1]))
      {
        if i < n {
          assert p[..n][i] == p[i];
          assert p[..n][0] == p[0];
        } else if i == n {
          assert p[..n][n - 1] == p[n - 1] && rest[0] == p[n + 1];
        } else {
          assert rest[i - n - 1] == p[i];
        }
      }
    }
  }

  /** The pattern lets in exactly the texts that are well formed character by character. */
  lemma {:induction false} GrammarIsExactlyLocal(p: string)
    ensures PathGrammar(p) <==> LocallyWellFormed(p)
    decreases |p|
  {
    var n := FirstSlash(p);
    if PathGrammar(p) {
      GrammarIsLocal(p);
    } else if LocallyWellFormed(p) {
      assert n > 0 && LowerAlphanumeric(p[n - 1]);
      assert Segment(p[..n]);
      assert n < |p|;
      var rest := p[n + 1..];
      assert forall i | 0 <= i < |rest| :: rest[i] == p[n + 1 + i];
      assert LocallyWellFormed(rest);
      GrammarIsExactlyLocal(rest);
    }
  }

  /** Where the last slash is, or -1. */
  function LastSlash(p: string): (i: int)
    ensures -1 <= i < |p| && (i >= 0 ==> p[i] == '/') && forall k | i < k < |p| :: p[k] != '/'
  {
    if p == "" then -1 else if p[|p| - 1] == '/' then |p| - 1 else LastSlash(p[..|p| - 1])
  }

  /** A path's parent, for a path with one. */
  function Parent(p: string): (q: string)
    requires LastSlash(p) >= 0
    ensures |q| < |p| && q <= p
  {
    p[..LastSlash(p)]
  }

  predicate IsStrictDescendant(parent: string, candidate: string) {
    ValidPath(parent) && ValidPath(candidate) && parent + "/" <= candidate
  }

  /** The path is the prefix or lies below it. */
  predicate Covers(prefix: string, path: string) {
    prefix == path || prefix + "/" <= path
  }

  /** What the resolution query writes: equality, or LIKE the prefix and everything below it. */
  predicate LikeCovers(prefix: string, path: string) {
    path == prefix || Like.Matches(prefix + "/%", path, Like.Same)
  }

  /** On valid prefixes the query's LIKE means exactly "is, or lies below". */
  lemma LikeMeansCovers(prefix: string, path: string)
    requires ValidPath(prefix)
    ensures LikeCovers(prefix, path) <==> Covers(prefix, path)
    ensures Like.Matches(prefix + "/%", path, Like.Same) <==> prefix + "/" <= path
  {
    GrammarIsLocal(prefix);
    assert prefix + "/%" == (prefix + "/") + "%";
    Like.LiteralPrefix(prefix + "/", path);
  }

  /** The prefixes that cover a path are the path itself and what covers its parent. */
  lemma CoversThroughParent(prefix: string, path: string)
    ensures Covers(prefix, path) <==> prefix == path || (LastSlash(path) >= 0 && Covers(prefix, Parent(path)))
  {
    if prefix + "/" <= path {
      var n := |prefix|;
      assert (prefix + "/")[n] == '/' && path[n] == '/' && path[..n] == prefix;
      var m := LastSlash(path);
      assert n <= m;
      if n < m { assert Parent(path)[..n + 1] == path[..n + 1] == prefix + "/"; }
    }
    if LastSlash(path) >= 0 {
      assert Parent(path) + "/" == path[..LastSlash(path) + 1];
    }
  }

  /** Two prefixes of one length that cover the same path are the same prefix. */
  lemma CoversSameLength(a: string, b: string, path: string)
    requires Covers(a, path) && Covers(b, path) && |a| == |b|
    ensures a == b
  {
    assert a == path || (a + "/")[..|a|] == a;
    assert b == path || (b + "/")[..|b|] == b;
  }

  lemma CoversTransitive(a: string, b: string, c: string)
    requires Covers(a, b) && Covers(b, c)
    ensures Covers(a, c)
  {
    if a != b && b != c {
      assert (a + "/") <= b <= b + "/" <= c;
    }
  }

  // ---------------------------------------------------------------- delegations

  datatype DelegationState = Active | Revoked

  datatype Delegation = Delegation(
    id: Uuid, namespaceId: Uuid, publisherId: Uuid, childPrefix: string,
    state: DelegationState, version: int, createdAt: Instant)

  /** restoreDelegation's check of a row read back. */
  predicate ValidDelegation(d: Delegation) {
    && ValidUuid(d.id) && ValidUuid(d.namespaceId) && ValidUuid(d.publisherId) && ValidPath(d.childPrefix)
    && (d.state.Active? ==> d.version == 1) && (d.state.Revoked? ==> d.version == 2) && d.createdAt != ZERO_TIME
  }

  /** A new delegation as it is stored. */
  function NewDelegation(
      id: Uuid, namespaceId: Uuid, namespacePath: string, publisherId: Uuid, childPrefix: string, now: Instant)
    : (r: Option<Delegation>)
    ensures r.Some? ==>
        ValidDelegation(r.value) && r.value.state.Active?
            && (namespacePath != "" ==> IsStrictDescendant(namespacePath, childPrefix))
  {
    var d := Delegation(id, namespaceId, publisherId, childPrefix, Active, 1, now);
    if ValidDelegation(d) && (namespacePath == "" || IsStrictDescendant(namespacePath, childPrefix))
    then Some(d)
    else None
  }

  predicate RevocationText(explanation: string) {
    |explanation| <= 4096 && forall i | 0 <= i < |explanation| :: !IsControl(explanation[i])
  }

  /** Revoke: only an active delegation, not before its creation, for a reason. */
  function RevokeDelegation(d: Delegation, reason: string, explanation: string, at: Nanos): (r: Option<Delegation>)
    ensures r.Some? && ValidDelegation(d) ==> ValidDelegation(r.value) && r.value.state.Revoked? && r.value.version == 2
    ensures r.Some? ==> d.state.Active? && d.createdAt <= StoredTime(at)
  {
    if !d.state.Active? || reason == "" || at == ZERO_NANOS || at < ReadBack(d.createdAt)
       || !RevocationText(explanation) then None
    else Some(d.(state := Revoked, version := d.version + 1))
  }
}
