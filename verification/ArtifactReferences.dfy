/** Artifact references: a namespace path and a name, written as one path. */
module ArtifactReferences {
  import opened Shared
  import opened Namespaces
  import opened Splitting

  /** The zero reference is empty. */
  datatype Reference = Reference(namespace: string, name: string)

  predicate ValidNameToken(value: string) {
    && 1 <= |value| <= 63
    && forall i | 0 <= i < |value| :: LowerAlphanumeric(value[i]) || (0 < i < |value| - 1 && value[i] == '-')
  }

  predicate AllTokens(parts: seq<string>) {
    forall i | 0 <= i < |parts| :: ValidNameToken(parts[i])
  }

  function Parse(value: string): Option<Reference> {
    if !(3 <= |value| <= 319) then None
    else
      var parts := Split(value, '/');
      if |parts| < 2 || !AllTokens(parts) then None
      else
        var namespace := Join(parts[..|parts| - 1], '/');
        if |namespace| > 255 then None else Some(Reference(namespace, parts[|parts| - 1]))
  }

  function String(r: Reference): string {
    if r.namespace == "" || r.name == "" then "" else r.namespace + "/" + r.name
  }

  /** The references that can be written: the namespace is a valid path whose every segment is short enough to be a
      token, and the name is a token. */
  predicate ValidReference(r: Reference) {
    ValidPath(r.namespace) && AllTokens(Split(r.namespace, '/')) && ValidNameToken(r.name)
  }

  lemma TokenIsSegment(value: string)
    ensures ValidNameToken(value) <==> Segment(value) && |value| <= 63
  {
  }

  /** Tokens joined by slashes are a path of the namespace grammar. */
  lemma {:induction false} TokensMakePath(parts: seq<string>)
    requires parts != [] && AllTokens(parts)
    ensures PathGrammar(Join(parts, '/'))
  {
    var p := Join(parts, '/');
    var n := |parts[0]|;
    TokenIsSegment(parts[0]);
    assert p[..n] == parts[0];
    FirstSlashAt(p, n);
    if |parts| > 1 {
      TokensMakePath(parts[1..]);
      assert p[n + 1..] == Join(parts[1..], '/');
    }
  }

  lemma {:induction false} FirstSlashAt(p: string, n: nat)
    requires n <= |p| && (n < |p| ==> p[n] == '/') && forall k | 0 <= k < n :: p[k] != '/'
    ensures FirstSlash(p) == n
  {
    if n > 0 { FirstSlashAt(p[1..], n - 1); }
  }

  lemma PlainTokens(parts: seq<string>)
    requires AllTokens(parts)
    ensures Plain(parts, '/')
  {
    forall i | 0 <= i < |parts| ensures '/' !in parts[i] { assert ValidNameToken(parts[i]); }
  }

  /** A written reference parses back to itself exactly when it is valid. */
  lemma ParseInvertsString(r: Reference)
    ensures Parse(String(r)) == Some(r) <==> ValidReference(r)
  {
    if Parse(String(r)) == Some(r) { StringInvertsParse(String(r)); }
    if ValidReference(r) {
      var parts := Split(r.namespace, '/');
      JoinInvertsSplit(r.namespace, '/');
      JoinSnoc(parts, r.name, '/');
      PlainTokens(parts + [r.name]);
      SplitInvertsJoin(parts + [r.name], '/');
      assert (parts + [r.name])[..|parts|] == parts;
      assert Split("", '/') == [""] && ValidNameToken(parts[0]);
    }
  }

  /** An accepted text is that of the valid reference it parses to: there is one text for each reference. */
  lemma StringInvertsParse(value: string)
    requires Parse(value).Some?
    ensures ValidReference(Parse(value).value) && String(Parse(value).value) == value
  {
    var parts := Split(value, '/');
    var front, name := parts[..|parts| - 1], parts[|parts| - 1];
    JoinInvertsSplit(value, '/');
    assert parts == front + [name];
    JoinSnoc(front, name, '/');
    assert AllTokens(front);
    TokensMakePath(front);
    PlainTokens(front);
    SplitInvertsJoin(front, '/');
  }

  /** A namespace that exists need not be referable: paths bound only their whole length, references every segment. */
  lemma LongSegmentsAreNotReferable(segment: string, name: string)
    requires |segment| == 64 && forall i | 0 <= i < 64 :: segment[i] == 'a'
    ensures ValidPath(segment) && !ValidReference(Reference(segment, name)) && Parse(segment + "/" + name).None?
  {
    FirstSlashAt(segment, 64);
    assert segment[..64] == segment;
    TextStartsWith(segment, name);
    SplitStart(segment, "");
    assert segment + "" == segment;
  }

  lemma {:induction false} SplitStart(a: string, rest: string)
    requires '/' !in a && (rest == "" || rest[0] == '/')
    ensures Split(a + rest, '/')[0] == a
  {
    if a == "" {
      assert a + rest == rest;
    } else {
      SplitStart(a[1..], rest);
      assert (a + rest)[1..] == a[1..] + rest;
    }
  }

  lemma TextStartsWith(segment: string, name: string)
    requires |segment| == 64 && '/' !in segment
    ensures Split(segment + "/" + name, '/')[0] == segment && Parse(segment + "/" + name).None?
  {
    assert segment + "/" + name == segment + ("/" + name);
    SplitStart(segment, "/" + name);
  }
}
