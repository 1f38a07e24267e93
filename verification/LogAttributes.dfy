/** Log attributes: groups of keyed values, bounded and redacted as they are logged. */
module LogAttributes {
  import opened Shared
  import opened Uuids
  import opened Utf8
  import opened Sanitize

  /** A value given to the logger as any object: nothing, data marked confidential or restricted, an error, or an
      object of the graph. */
  datatype Object = Nothing | Classified | Failure | Plain(node: Node)

  datatype Value = Group(attrs: seq<Attr>) | Any(item: Object) | Words(text: Text) | Basic(image: string)

  datatype Attr = Attr(key: string, value: Value)

  datatype CleanValue = CleanGroup(attrs: seq<CleanAttr>) | Logged(c: Clean)

  datatype CleanAttr = CleanAttr(key: string, value: CleanValue)

  /** The nodes attributes refer to are in the graph. */
  predicate Refers(g: Graph, a: Attr) {
    match a.value
    case Group(attrs) => forall i | 0 <= i < |attrs| :: Refers(g, attrs[i])
    case Any(item) => item.Plain? ==> item.node in g
    case _ => true
  }

  ghost function SanitizedObject(g: Graph, p: Policy, item: Object, depth: nat): Clean
    requires Closed(g) && (item.Plain? ==> item.node in g)
  {
    match item
    case Nothing => CNull
    case Classified => REDACTED
    case Failure => REDACTED
    case Plain(node) => if depth > MAX_DEPTH then TRUNCATION else Sanitized(g, p, node, depth, {})
  }

  /** An attribute as logged, or None if it is dropped. */
  ghost function SanitizedAttr(g: Graph, p: Policy, a: Attr, depth: nat): Option<CleanAttr>
    requires Closed(g) && Refers(g, a)
    decreases a, 0
  {
    if a.key == "" || p.reserved(a.key) then None
    else if p.sensitive(a.key) then Some(CleanAttr(a.key, Logged(REDACTED)))
    else if depth >= MAX_DEPTH then Some(CleanAttr(a.key, Logged(TRUNCATION)))
    else match a.value
      case Group(attrs) => Some(CleanAttr(a.key, CleanGroup(SanitizedAttrs(g, p, attrs, depth + 1))))
      case Any(item) => Some(CleanAttr(a.key, Logged(SanitizedObject(g, p, item, depth + 1))))
      case Words(text) => Some(CleanAttr(a.key, Logged(CText(Bounded(text)))))
      case Basic(image) => Some(CleanAttr(a.key, Logged(CScalar(image))))
  }

  /** The first attributes, those that are not dropped, and a marker if there were more. */
  ghost function SanitizedAttrs(g: Graph, p: Policy, attrs: seq<Attr>, depth: nat): seq<CleanAttr>
    requires Closed(g) && forall i | 0 <= i < |attrs| :: Refers(g, attrs[i])
    decreases attrs, |attrs| + 1
  {
    Kept(g, p, attrs, if |attrs| < MAX_ENTRIES then |attrs| else MAX_ENTRIES, depth)
      + if |attrs| > MAX_ENTRIES then [CleanAttr(LOGGING_TRUNCATED, Logged(TRUNCATION))] else []
  }

  ghost function Kept(g: Graph, p: Policy, attrs: seq<Attr>, n: nat, depth: nat): seq<CleanAttr>
    requires Closed(g) && n <= |attrs| && forall i | 0 <= i < |attrs| :: Refers(g, attrs[i])
    decreases attrs, n
  {
    if n == 0 then []
    else
      var front, last := Kept(g, p, attrs, n - 1, depth), SanitizedAttr(g, p, attrs[n - 1], depth);
      if last.None? then front else front + [last.value]
  }

  method SanitizeAttrs(g: Graph, p: Policy, attrs: seq<Attr>, depth: nat) returns (clean: seq<CleanAttr>)
    requires Closed(g) && forall i | 0 <= i < |attrs| :: Refers(g, attrs[i])
    ensures clean == SanitizedAttrs(g, p, attrs, depth)
    decreases attrs, |attrs| + 1
  {
    var limit := if |attrs| < MAX_ENTRIES then |attrs| else MAX_ENTRIES;
    clean := [];
    for i := 0 to limit
      invariant clean == Kept(g, p, attrs, i, depth)
    {
      var attr := SanitizeAttr(g, p, attrs[i], depth);
      if attr.Some? { clean := clean + [attr.value]; }
    }
    if |attrs| > limit { clean := clean + [CleanAttr(LOGGING_TRUNCATED, Logged(TRUNCATION))]; }
  }

  method SanitizeAttr(g: Graph, p: Policy, a: Attr, depth: nat) returns (r: Option<CleanAttr>)
    requires Closed(g) && Refers(g, a)
    ensures r == SanitizedAttr(g, p, a, depth)
    decreases a, 0
  {
    if a.key == "" || p.reserved(a.key) { return None; }
    if p.sensitive(a.key) { return Some(CleanAttr(a.key, Logged(REDACTED))); }
    if depth >= MAX_DEPTH { return Some(CleanAttr(a.key, Logged(TRUNCATION))); }
    match a.value
    case Group(attrs) =>
      var inner := SanitizeAttrs(g, p, attrs, depth + 1);
      r := Some(CleanAttr(a.key, CleanGroup(inner)));
    case Any(item) =>
      var c := SanitizeAny(g, p, item, depth + 1);
      r := Some(CleanAttr(a.key, Logged(c)));
    case Words(text) =>
      var bounded := BoundedString(text);
      r := Some(CleanAttr(a.key, Logged(CText(bounded))));
    case Basic(image) => r := Some(CleanAttr(a.key, Logged(CScalar(image))));
  }

  method SanitizeAny(g: Graph, p: Policy, item: Object, depth: nat) returns (c: Clean)
    requires Closed(g) && (item.Plain? ==> item.node in g)
    ensures c == SanitizedObject(g, p, item, depth)
  {
    match item
    case Nothing => c := CNull;
    case Classified => c := REDACTED;
    case Failure => c := REDACTED;
    case Plain(node) =>
      if depth > MAX_DEPTH { return TRUNCATION; }
      var visits := new Visits();
      c := SanitizeReflect(g, p, node, depth, visits);
  }

  // ---------------------------------------------------------------- bounds and secrets

  /** At most 65 attributes a group, groups at most so deep, and every value small. */
  predicate SmallAttrs(attrs: seq<CleanAttr>, levels: nat)
    decreases levels, 1
  {
    |attrs| <= MAX_ENTRIES + 1 && forall i | 0 <= i < |attrs| :: SmallAttr(attrs[i], levels)
  }

  predicate SmallAttr(a: CleanAttr, levels: nat)
    decreases levels, 0
  {
    match a.value
    case CleanGroup(attrs) => levels > 0 && SmallAttrs(attrs, levels - 1)
    case Logged(c) => Small(c, MAX_DEPTH + 1)
  }

  /** What is logged is small, however wide and deep the groups. */
  lemma {:induction false} AttributesAreSmall(g: Graph, p: Policy, attrs: seq<Attr>, depth: nat)
    requires Closed(g) && depth <= MAX_DEPTH && forall i | 0 <= i < |attrs| :: Refers(g, attrs[i])
    ensures SmallAttrs(SanitizedAttrs(g, p, attrs, depth), MAX_DEPTH - depth)
    decreases attrs, |attrs| + 1
  {
    KeptAreSmall(g, p, attrs, if |attrs| < MAX_ENTRIES then |attrs| else MAX_ENTRIES, depth);
  }

  lemma {:induction false} KeptAreSmall(g: Graph, p: Policy, attrs: seq<Attr>, n: nat, depth: nat)
    requires Closed(g) && depth <= MAX_DEPTH && n <= |attrs| && forall i | 0 <= i < |attrs| :: Refers(g, attrs[i])
    ensures |Kept(g, p, attrs, n, depth)| <= n
    ensures forall i | 0 <= i < |Kept(g, p, attrs, n, depth)| ::
        SmallAttr(Kept(g, p, attrs, n, depth)[i], MAX_DEPTH - depth)
    decreases attrs, n
  {
    if n > 0 {
      KeptAreSmall(g, p, attrs, n - 1, depth);
      AttributeIsSmall(g, p, attrs[n - 1], depth);
    }
  }

  lemma {:induction false} AttributeIsSmall(g: Graph, p: Policy, a: Attr, depth: nat)
    requires Closed(g) && Refers(g, a) && depth <= MAX_DEPTH
    ensures var r := SanitizedAttr(g, p, a, depth); r.Some? ==> SmallAttr(r.value, MAX_DEPTH - depth)
    decreases a, 0
  {
    if a.key != "" && !Hidden(p, a.key) && depth < MAX_DEPTH {
      match a.value
      case Group(attrs) => AttributesAreSmall(g, p, attrs, depth + 1);
      case Any(item) =>
        if item.Plain? {
          SanitizedIsSmall(g, p, item.node, depth + 1, {});
          SmallerIsSmall(Sanitized(g, p, item.node, depth + 1, {}), Levels(depth + 1), MAX_DEPTH + 1);
        }
      case Words(text) => BoundedIsSafe(text);
      case Basic(_) =>
    }
  }

  /** Two attributes differ at most behind sensitive or reserved keys. Classified data and errors carry nothing. */
  ghost predicate AlikeAttrs(a: Attr, b: Attr, p: Policy, visible: set<Node>) {
    && b.key == a.key
    && (Hidden(p, a.key)
        || match a.value
           case Group(attrs) =>
             b.value.Group? && |b.value.attrs| == |attrs|
             && forall i | 0 <= i < |attrs| :: AlikeAttrs(attrs[i], b.value.attrs[i], p, visible)
           case Any(item) => b.value == a.value && (item.Plain? ==> item.node in visible)
           case _ => b.value == a.value)
  }

  /** What is logged does not depend on anything behind a sensitive key, in any group. */
  lemma {:induction false} AttributeSecretsNeverShow(
      g: Graph, h: Graph, p: Policy, visible: set<Node>, a: Attr, b: Attr, depth: nat)
    requires Alike(g, h, p, visible) && Refers(g, a) && Refers(h, b) && AlikeAttrs(a, b, p, visible)
    ensures SanitizedAttr(g, p, a, depth) == SanitizedAttr(h, p, b, depth)
    decreases a, 0
  {
    if a.key != "" && !Hidden(p, a.key) && depth < MAX_DEPTH {
      match a.value
      case Group(attrs) =>
        var n := if |attrs| < MAX_ENTRIES then |attrs| else MAX_ENTRIES;
        KeptSecrets(g, h, p, visible, attrs, b.value.attrs, n, depth + 1);
      case Any(item) => if item.Plain? { SecretsNeverShow(g, h, p, visible, item.node, depth + 1, {}); }
      case _ =>
    }
  }

  lemma {:induction false} KeptSecrets(
      g: Graph, h: Graph, p: Policy, visible: set<Node>, a: seq<Attr>, b: seq<Attr>, n: nat, depth: nat)
    requires Alike(g, h, p, visible) && |a| == |b| && n <= |a|
    requires forall i | 0 <= i < |a| :: Refers(g, a[i]) && Refers(h, b[i]) && AlikeAttrs(a[i], b[i], p, visible)
    ensures Kept(g, p, a, n, depth) == Kept(h, p, b, n, depth)
    decreases a, n
  {
    if n > 0 {
      KeptSecrets(g, h, p, visible, a, b, n - 1, depth);
      AttributeSecretsNeverShow(g, h, p, visible, a[n - 1], b[n - 1], depth);
    }
  }

  // ---------------------------------------------------------------- what does show

  predicate IsLogged(p: Policy, a: Attr) {
    a.key != "" && !p.reserved(a.key)
  }

  /** How many of the first i attributes are logged. */
  function LoggedBefore(p: Policy, attrs: seq<Attr>, i: nat): nat
    requires i <= |attrs|
  {
    if i == 0 then 0 else LoggedBefore(p, attrs, i - 1) + if IsLogged(p, attrs[i - 1]) then 1 else 0
  }

  /** What an attribute is to look like in the log: under its own key, redacted if the key is sensitive, cut off below
      eight groups, and otherwise its group, its text, its value or its object as it looks; data marked confidential or
      restricted and errors never show. */
  ghost predicate AttrDepicted(g: Graph, p: Policy, a: Attr, depth: nat, c: CleanAttr)
    requires Closed(g) && Refers(g, a)
    decreases a, 0
  {
    && c.key == a.key
    && if p.sensitive(a.key) then c.value == Logged(REDACTED)
       else if depth >= 8 then c.value == Logged(TRUNCATION)
       else match a.value
         case Group(attrs) => c.value.CleanGroup? && AttrsDepicted(g, p, attrs, depth + 1, c.value.attrs)
         case Any(item) =>
           (match item
            case Nothing => c.value == Logged(CNull)
            case Classified => c.value == Logged(REDACTED)
            case Failure => c.value == Logged(REDACTED)
            case Plain(node) => c.value.Logged? && Depicts(g, p, node, depth + 1, {}, c.value.c))
         case Words(text) => c.value == Logged(CText(if |text| <= 4096 then text else Bounded(text)))
         case Basic(image) => c.value == Logged(CScalar(image))
  }

  /** What a group is to look like: of its first 64 attributes those that have a key, and none reserved, in their order,
      and a mark if there are more. */
  ghost predicate AttrsDepicted(g: Graph, p: Policy, attrs: seq<Attr>, depth: nat, clean: seq<CleanAttr>)
    requires Closed(g) && forall i | 0 <= i < |attrs| :: Refers(g, attrs[i])
    decreases attrs, |attrs| + 1
  {
    var n := if |attrs| <= 64 then |attrs| else 64;
    var count := LoggedBefore(p, attrs, n);
    && |clean| == count + (if |attrs| > 64 then 1 else 0)
    && (forall i | 0 <= i < n && IsLogged(p, attrs[i]) ::
          LoggedBefore(p, attrs, i) < count && AttrDepicted(g, p, attrs[i], depth, clean[LoggedBefore(p, attrs, i)]))
    && (|attrs| > 64 ==> clean[count] == CleanAttr("logging_truncated", Logged(TRUNCATION)))
  }

  /** The kept attributes stand where those before them say, and each of them is one that is logged. */
  lemma {:induction false} KeptShow(g: Graph, p: Policy, attrs: seq<Attr>, n: nat, depth: nat)
    requires Closed(g) && n <= |attrs| && forall i | 0 <= i < |attrs| :: Refers(g, attrs[i])
    ensures |Kept(g, p, attrs, n, depth)| == LoggedBefore(p, attrs, n)
    ensures forall i | 0 <= i < n && IsLogged(p, attrs[i]) ::
              && LoggedBefore(p, attrs, i) < LoggedBefore(p, attrs, n)
              && SanitizedAttr(g, p, attrs[i], depth) == Some(Kept(g, p, attrs, n, depth)[LoggedBefore(p, attrs, i)])
    decreases n
  {
    if n > 0 {
      KeptShow(g, p, attrs, n - 1, depth);
      AttrIsLogged(g, p, attrs[n - 1], depth);
      hide SanitizedAttr, Closed, Refers;
    }
  }

  lemma AttrIsLogged(g: Graph, p: Policy, a: Attr, depth: nat)
    requires Closed(g) && Refers(g, a)
    ensures SanitizedAttr(g, p, a, depth).Some? <==> IsLogged(p, a)
  {
    hide SanitizedAttrs, SanitizedObject, Closed;
  }

  lemma {:induction false} EachIsLogged(p: Policy, attrs: seq<Attr>, n: nat, k: nat) returns (i: nat)
    requires n <= |attrs| && k < LoggedBefore(p, attrs, n)
    ensures i < n && IsLogged(p, attrs[i]) && LoggedBefore(p, attrs, i) == k
    decreases n
  {
    if k < LoggedBefore(p, attrs, n - 1) { i := EachIsLogged(p, attrs, n - 1, k); } else { i := n - 1; }
  }

  /** What is logged of attributes looks as it should. */
  lemma {:induction false} AttributesLookAsTheyShould(g: Graph, p: Policy, attrs: seq<Attr>, depth: nat)
    requires Closed(g) && forall i | 0 <= i < |attrs| :: Refers(g, attrs[i])
    ensures AttrsDepicted(g, p, attrs, depth, SanitizedAttrs(g, p, attrs, depth))
    decreases attrs, |attrs| + 1
  {
    hide SanitizedAttr, AttrDepicted, Closed;
    var n := if |attrs| < MAX_ENTRIES then |attrs| else MAX_ENTRIES;
    KeptShow(g, p, attrs, n, depth);
    forall i | 0 <= i < n && IsLogged(p, attrs[i])
      ensures SanitizedAttr(g, p, attrs[i], depth).Some?
      ensures AttrDepicted(g, p, attrs[i], depth, SanitizedAttr(g, p, attrs[i], depth).value)
    {
      AttrIsLogged(g, p, attrs[i], depth);
      AttributeLooksAsItShould(g, p, attrs[i], depth);
    }
  }

  lemma {:induction false} AttributeLooksAsItShould(g: Graph, p: Policy, a: Attr, depth: nat)
    requires Closed(g) && Refers(g, a) && SanitizedAttr(g, p, a, depth).Some?
    ensures AttrDepicted(g, p, a, depth, SanitizedAttr(g, p, a, depth).value)
    decreases a, 0
  {
    if !p.sensitive(a.key) && depth < MAX_DEPTH {
      match a.value
      case Group(attrs) => AttributesLookAsTheyShould(g, p, attrs, depth + 1);
      case Any(item) => if item.Plain? { LooksAsItShould(g, p, item.node, depth + 1, {}); }
      case Words(text) => BoundedIsSafe(text);
      case Basic(_) =>
    }
  }

  /** And there is one way they are to look. */
  lemma {:induction false} AttributesLookOneWay(
      g: Graph, p: Policy, attrs: seq<Attr>, depth: nat, clean: seq<CleanAttr>)
    requires Closed(g) && forall i | 0 <= i < |attrs| :: Refers(g, attrs[i])
    requires AttrsDepicted(g, p, attrs, depth, clean)
    ensures clean == SanitizedAttrs(g, p, attrs, depth)
    decreases attrs, |attrs| + 1
  {
    hide SanitizedAttr, AttrDepicted, Closed;
    var n := if |attrs| < MAX_ENTRIES then |attrs| else MAX_ENTRIES;
    var kept := Kept(g, p, attrs, n, depth);
    KeptShow(g, p, attrs, n, depth);
    forall k | 0 <= k < |kept| ensures clean[k] == kept[k] {
      var i := EachIsLogged(p, attrs, n, k);
      AttrIsLogged(g, p, attrs[i], depth);
      AttributeLooksOneWay(g, p, attrs[i], depth, clean[k]);
    }
  }

  lemma {:induction false} AttributeLooksOneWay(g: Graph, p: Policy, a: Attr, depth: nat, c: CleanAttr)
    requires Closed(g) && Refers(g, a) && SanitizedAttr(g, p, a, depth).Some? && AttrDepicted(g, p, a, depth, c)
    ensures c == SanitizedAttr(g, p, a, depth).value
    decreases a, 0
  {
    if !p.sensitive(a.key) && depth < MAX_DEPTH {
      match a.value
      case Group(attrs) => AttributesLookOneWay(g, p, attrs, depth + 1, c.value.attrs);
      case Any(item) => if item.Plain? { LooksOneWay(g, p, item.node, depth + 1, {}, c.value.c); }
      case Words(text) => BoundedIsSafe(text);
      case Basic(_) =>
    }
  }
}
