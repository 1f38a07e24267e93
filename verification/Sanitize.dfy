/** The log sanitizer: a bounded traversal of any object graph, cyclic ones included, that never lets a value under
    a sensitive key through. */
module Sanitize {
  import opened Shared
  import opened Uuids
  import opened Utf8

  const MAX_DEPTH := 8
  const MAX_ENTRIES := 64

  type Text = seq<Byte>

  const REDACTED: Clean := CText([0x5b, 0x52, 0x45, 0x44, 0x41, 0x43, 0x54, 0x45, 0x44, 0x5d])
  const TRUNCATION: Clean := CText(TRUNCATED)
  const CYCLE: Clean := CText([0x5b, 0x43, 0x59, 0x43, 0x4c, 0x45, 0x5d])
  const UNSUPPORTED: Clean := CText([0x5b, 0x55, 0x4e, 0x53, 0x55, 0x50, 0x50, 0x4f, 0x52, 0x54, 0x45, 0x44, 0x5d])

  // ---------------------------------------------------------------- object graphs

  type Node = nat

  /** A struct field as reflection shows it: its name after the json tag, and whether it is to be skipped (not
      exported, or tagged "-"). */
  datatype Field = Field(name: string, skipped: bool, value: Node)

  /** What reflection sees of one value; pointers carry their address. Map entries are in iteration order. */
  datatype Shape =
    | Invalid
    | Interface(elem: Option<Node>)
    | Pointer(target: Option<(nat, Node)>)
    | String(text: Text)
    | Scalar(image: string)
    | Map(stringKeys: bool, entries: seq<(string, Node)>)
    | Struct(fields: seq<Field>)
    | List(isNil: bool, items: seq<Node>)
    | Other

  type Graph = map<Node, Shape>

  function Children(s: Shape): set<Node> {
    match s
    case Interface(elem) => if elem.Some? then {elem.value} else {}
    case Pointer(target) => if target.Some? then {target.value.1} else {}
    case Map(_, entries) => set i | 0 <= i < |entries| :: entries[i].1
    case Struct(fields) => set i | 0 <= i < |fields| :: fields[i].value
    case List(_, items) => set i | 0 <= i < |items| :: items[i]
    case _ => {}
  }

  /** Every value a value holds is in the graph, and an interface never holds an interface. */
  ghost predicate Closed(g: Graph) {
    && (forall n, c | n in g && c in Children(g[n]) :: c in g)
    && (forall n | n in g && g[n].Interface? && g[n].elem.Some? && g[n].elem.value in g ::
          !g[g[n].elem.value].Interface?)
  }

  /** Which keys are dropped and which are redacted. */
  datatype Policy = Policy(reserved: string -> bool, sensitive: string -> bool)

  const LOGGING_TRUNCATED := "logging_truncated"

  /** What is logged: a finite tree. */
  datatype Clean =
    | CNull
    | CText(text: Text)
    | CScalar(image: string)
    | CMap(entries: map<string, Clean>)
    | CList(items: seq<Clean>)

  // ---------------------------------------------------------------- the sanitized value

  function Pairs(fields: seq<Field>, p: Policy): seq<(string, Node)> {
    if fields == [] then []
    else
      var front, last := Pairs(fields[..|fields| - 1], p), fields[|fields| - 1];
      if last.skipped || p.reserved(last.name) then front else front + [(last.name, last.value)]
  }

  function First<T>(s: seq<T>): seq<T> {
    if |s| <= MAX_ENTRIES then s else s[..MAX_ENTRIES]
  }

  function Marked(clean: map<string, Clean>, truncated: bool): map<string, Clean> {
    if truncated then clean[LOGGING_TRUNCATED := TRUNCATION] else clean
  }

  /** The sanitized form of a value at a depth, below the pointers already on the path. */
  ghost function Sanitized(g: Graph, p: Policy, n: Node, depth: nat, seen: set<nat>): Clean
    requires Closed(g) && n in g
    decreases MAX_DEPTH + 1 - depth, if g[n].Interface? then 4 else 3
  {
    if g[n].Invalid? then CNull
    else if depth > MAX_DEPTH then TRUNCATION
    else match g[n]
      case Interface(elem) => if elem.None? then CNull else Sanitized(g, p, elem.value, depth, seen)
      case Pointer(target) =>
        if target.None? then CNull
        else if target.value.0 in seen then CYCLE
        else Sanitized(g, p, target.value.1, depth + 1, seen + {target.value.0})
      case String(text) => CText(Bounded(text))
      case Scalar(image) => CScalar(image)
      case Map(stringKeys, entries) =>
        if !stringKeys then UNSUPPORTED
        else
          var clean := SanitizedEntries(g, p, First(entries), depth, seen);
          CMap(Marked(clean, |entries| > MAX_ENTRIES))
      case Struct(fields) =>
        var pairs := Pairs(fields, p);
        PairsAreFields(fields, p);
        var clean := SanitizedEntries(g, p, First(pairs), depth, seen);
        CMap(Marked(clean, |pairs| > MAX_ENTRIES))
      case List(isNil, items) =>
        if isNil then CNull
        else CList(SanitizedItems(g, p, First(items), depth, seen) + if |items| > MAX_ENTRIES then [TRUNCATION] else [])
      case Other => UNSUPPORTED
  }

  ghost function SanitizedEntries(
      g: Graph, p: Policy, entries: seq<(string, Node)>, depth: nat, seen: set<nat>): map<string, Clean>
    requires Closed(g) && depth <= MAX_DEPTH && forall i | 0 <= i < |entries| :: entries[i].1 in g
    decreases MAX_DEPTH + 1 - depth, 2, |entries|
  {
    if entries == [] then map[]
    else
      var front, (key, value) := SanitizedEntries(g, p, entries[..|entries| - 1], depth, seen), entries[|entries| - 1];
      if p.reserved(key) then front
      else front[key := if p.sensitive(key) then REDACTED else Sanitized(g, p, value, depth + 1, seen)]
  }

  ghost function SanitizedItems(g: Graph, p: Policy, items: seq<Node>, depth: nat, seen: set<nat>): seq<Clean>
    requires Closed(g) && depth <= MAX_DEPTH && forall i | 0 <= i < |items| :: items[i] in g
    decreases MAX_DEPTH + 1 - depth, 2, |items|
  {
    if items == [] then []
    else
      var last := Sanitized(g, p, items[|items| - 1], depth + 1, seen);
      SanitizedItems(g, p, items[..|items| - 1], depth, seen) + [last]
  }

  ghost predicate IsFieldValue(fields: seq<Field>, n: Node) {
    exists j :: 0 <= j < |fields| && fields[j].value == n
  }

  lemma {:induction false} PairsAreFields(fields: seq<Field>, p: Policy)
    ensures forall i | 0 <= i < |Pairs(fields, p)| :: IsFieldValue(fields, Pairs(fields, p)[i].1)
  {
    if fields != [] {
      var front := fields[..|fields| - 1];
      PairsAreFields(front, p);
      forall n: Node | IsFieldValue(front, n) ensures IsFieldValue(fields, n) {
        var j :| 0 <= j < |front| && front[j].value == n;
        assert fields[j].value == n;
      }
      assert IsFieldValue(fields, fields[|fields| - 1].value);
    }
  }

  // ---------------------------------------------------------------- the traversal

  /** The pointers on the path to the value being sanitized. */
  class Visits {
    var seen: set<nat>

    constructor ()
      ensures seen == {}
    {
      seen := {};
    }
  }

  /** sanitizeReflect: terminates on every graph, computes the sanitized form, and leaves the visited pointers as they
      were. */
  method SanitizeReflect(g: Graph, p: Policy, n: Node, depth: nat, visits: Visits) returns (c: Clean)
    requires Closed(g) && n in g
    modifies visits
    ensures c == Sanitized(g, p, n, depth, old(visits.seen)) && visits.seen == old(visits.seen)
    decreases MAX_DEPTH + 1 - depth, if g[n].Interface? then 4 else 3
  {
    if g[n].Invalid? { return CNull; }
    if depth > MAX_DEPTH { return TRUNCATION; }
    match g[n]
    case Interface(elem) =>
      if elem.None? { return CNull; }
      c := SanitizeReflect(g, p, elem.value, depth, visits);
    case Pointer(target) =>
      if target.None? { return CNull; }
      var (address, elem) := target.value;
      if address in visits.seen { return CYCLE; }
      visits.seen := visits.seen + {address};
      c := SanitizeReflect(g, p, elem, depth + 1, visits);
      visits.seen := visits.seen - {address};
    case String(text) =>
      var bounded := BoundedString(text);
      c := CText(bounded);
    case Scalar(image) => c := CScalar(image);
    case Map(stringKeys, entries) =>
      if !stringKeys { return UNSUPPORTED; }
      c := SanitizeMap(g, p, entries, depth, visits);
    case Struct(fields) =>
      PairsAreFields(fields, p);
      c := SanitizeStruct(g, p, fields, depth, visits);
    case List(isNil, items) =>
      if isNil { return CNull; }
      c := SanitizeList(g, p, items, depth, visits);
    case Other => c := UNSUPPORTED;
  }

  method SanitizeMap(g: Graph, p: Policy, entries: seq<(string, Node)>, depth: nat, visits: Visits) returns (c: Clean)
    requires Closed(g) && depth <= MAX_DEPTH && forall i | 0 <= i < |entries| :: entries[i].1 in g
    modifies visits
    ensures c == CMap(Marked(SanitizedEntries(g, p, First(entries), depth, old(visits.seen)), |entries| > MAX_ENTRIES))
    ensures visits.seen == old(visits.seen)
    decreases MAX_DEPTH + 1 - depth, 2
  {
    var clean: map<string, Clean> := map[];
    var count := 0;
    while count < |entries|
      invariant count <= |First(entries)| && visits.seen == old(visits.seen)
      invariant clean == SanitizedEntries(g, p, entries[..count], depth, old(visits.seen))
    {
      if count >= MAX_ENTRIES {
        clean := clean[LOGGING_TRUNCATED := TRUNCATION];
        break;
      }
      var (key, value) := entries[count];
      assert entries[..count + 1][..count] == entries[..count];
      count := count + 1;
      if p.reserved(key) { continue; }
      if p.sensitive(key) {
        clean := clean[key := REDACTED];
      } else {
        var inner := SanitizeReflect(g, p, value, depth + 1, visits);
        clean := clean[key := inner];
      }
    }
    assert entries[..|entries|] == entries;
    c := CMap(clean);
  }

  method SanitizeStruct(g: Graph, p: Policy, fields: seq<Field>, depth: nat, visits: Visits) returns (c: Clean)
    requires Closed(g) && depth <= MAX_DEPTH && forall i | 0 <= i < |fields| :: fields[i].value in g
    modifies visits
    ensures visits.seen == old(visits.seen)
    ensures var pairs := Pairs(fields, p);
            && (forall i | 0 <= i < |pairs| :: pairs[i].1 in g)
            && c == CMap(Marked(SanitizedEntries(g, p, First(pairs), depth, old(visits.seen)), |pairs| > MAX_ENTRIES))
    decreases MAX_DEPTH + 1 - depth, 2
  {
    hide Closed, Sanitized, SanitizedItems;
    PairsAreFields(fields, p);
    ghost var pairs := Pairs(fields, p);
    var clean: map<string, Clean> := map[];
    var count := 0;
    for index := 0 to |fields|
      invariant visits.seen == old(visits.seen)
      invariant count == |Pairs(fields[..index], p)| <= MAX_ENTRIES && count <= |pairs|
                && pairs[..count] == Pairs(fields[..index], p)
      invariant clean == SanitizedEntries(g, p, pairs[..count], depth, old(visits.seen))
    {
      PairsGrow(fields, p, index);
      var field := fields[index];
      if field.skipped || p.reserved(field.name) { continue; }
      if count >= MAX_ENTRIES {
        clean := clean[LOGGING_TRUNCATED := TRUNCATION];
        return CMap(clean);
      }
      assert pairs[..count + 1][..count] == pairs[..count] && pairs[count] == (field.name, field.value);
      count := count + 1;
      if p.sensitive(field.name) {
        clean := clean[field.name := REDACTED];
      } else {
        var inner := SanitizeReflect(g, p, field.value, depth + 1, visits);
        clean := clean[field.name := inner];
      }
    }
    assert fields[..|fields|] == fields;
    c := CMap(clean);
  }

  /** The eligible fields up to an index are a beginning of all of them. */
  lemma PairsGrow(fields: seq<Field>, p: Policy, index: nat)
    requires index < |fields|
    ensures var field := fields[index];
            Pairs(fields[..index + 1], p) == Pairs(fields[..index], p)
              + if field.skipped || p.reserved(field.name) then [] else [(field.name, field.value)]
    ensures Pairs(fields[..index + 1], p) <= Pairs(fields, p)
  {
    assert fields[..index + 1][..index] == fields[..index];
    PairsPrefix(fields, p, index + 1);
  }

  lemma {:induction false} PairsPrefix(fields: seq<Field>, p: Policy, k: nat)
    requires k <= |fields|
    ensures Pairs(fields[..k], p) <= Pairs(fields, p)
  {
    if k == |fields| {
      assert fields[..k] == fields;
    } else {
      PairsPrefix(fields[..|fields| - 1], p, k);
      assert fields[..|fields| - 1][..k] == fields[..k];
    }
  }

  method SanitizeList(g: Graph, p: Policy, items: seq<Node>, depth: nat, visits: Visits) returns (c: Clean)
    requires Closed(g) && depth <= MAX_DEPTH && forall i | 0 <= i < |items| :: items[i] in g
    modifies visits
    ensures var end := if |items| > MAX_ENTRIES then [TRUNCATION] else [];
            c == CList(SanitizedItems(g, p, First(items), depth, old(visits.seen)) + end)
    ensures visits.seen == old(visits.seen)
    decreases MAX_DEPTH + 1 - depth, 2
  {
    var limit := if |items| < MAX_ENTRIES then |items| else MAX_ENTRIES;
    var clean: seq<Clean> := [];
    for index := 0 to limit
      invariant visits.seen == old(visits.seen)
      invariant clean == SanitizedItems(g, p, items[..index], depth, old(visits.seen))
    {
      assert items[..index + 1][..index] == items[..index];
      var inner := SanitizeReflect(g, p, items[index], depth + 1, visits);
      clean := clean + [inner];
    }
    assert items[..limit] == First(items);
    if |items| > limit { clean := clean + [TRUNCATION]; }
    c := CList(clean);
  }

  // ---------------------------------------------------------------- bounds

  /** The tree is at most so many collections deep, each with at most 65 entries, and its strings are bounded. */
  predicate Small(c: Clean, levels: nat) {
    match c
    case CText(text) => |text| <= MAX_STRING_BYTES
    case CMap(entries) =>
      levels > 0 && |entries| <= MAX_ENTRIES + 1 && forall k | k in entries :: Small(entries[k], levels - 1)
    case CList(items) =>
      levels > 0 && |items| <= MAX_ENTRIES + 1 && forall i | 0 <= i < |items| :: Small(items[i], levels - 1)
    case _ => true
  }

  function Levels(depth: nat): nat {
    if depth > MAX_DEPTH then 0 else MAX_DEPTH + 1 - depth
  }

  /** Whatever the graph, what is logged is small. */
  lemma {:induction false} SanitizedIsSmall(g: Graph, p: Policy, n: Node, depth: nat, seen: set<nat>)
    requires Closed(g) && n in g
    ensures Small(Sanitized(g, p, n, depth, seen), Levels(depth))
    decreases MAX_DEPTH + 1 - depth, if g[n].Interface? then 4 else 3
  {
    if !g[n].Invalid? && depth <= MAX_DEPTH {
      match g[n]
      case Interface(elem) => if elem.Some? { SanitizedIsSmall(g, p, elem.value, depth, seen); }
      case Pointer(target) =>
        if target.Some? && target.value.0 !in seen {
          SanitizedIsSmall(g, p, target.value.1, depth + 1, seen + {target.value.0});
          var inner := Sanitized(g, p, target.value.1, depth + 1, seen + {target.value.0});
          SmallerIsSmall(inner, Levels(depth + 1), Levels(depth));
        }
      case String(text) => BoundedIsSafe(text);
      case Map(stringKeys, entries) =>
        EntriesAreSmall(g, p, First(entries), depth, seen);
        MarkedIsSmall(SanitizedEntries(g, p, First(entries), depth, seen), |entries| > MAX_ENTRIES, Levels(depth));
      case Struct(fields) =>
        PairsAreFields(fields, p);
        var pairs := Pairs(fields, p);
        EntriesAreSmall(g, p, First(pairs), depth, seen);
        MarkedIsSmall(SanitizedEntries(g, p, First(pairs), depth, seen), |pairs| > MAX_ENTRIES, Levels(depth));
      case List(_, items) => ItemsAreSmall(g, p, First(items), depth, seen);
      case _ =>
    }
  }

  lemma {:induction false} SmallerIsSmall(c: Clean, a: nat, b: nat)
    requires Small(c, a) && a <= b
    ensures Small(c, b)
    decreases a
  {
    match c
    case CMap(entries) =>
      forall k | k in entries ensures Small(entries[k], b - 1) { SmallerIsSmall(entries[k], a - 1, b - 1); }
    case CList(items) =>
      forall i | 0 <= i < |items| ensures Small(items[i], b - 1) { SmallerIsSmall(items[i], a - 1, b - 1); }
    case _ =>
  }

  lemma {:induction false} EntriesAreSmall(
      g: Graph, p: Policy, entries: seq<(string, Node)>, depth: nat, seen: set<nat>)
    requires Closed(g) && depth <= MAX_DEPTH && forall i | 0 <= i < |entries| :: entries[i].1 in g
    ensures var clean := SanitizedEntries(g, p, entries, depth, seen);
            |clean| <= |entries| && forall k | k in clean :: Small(clean[k], Levels(depth) - 1)
    decreases MAX_DEPTH + 1 - depth, 2, |entries|
  {
    if entries != [] {
      var key, value := entries[|entries| - 1].0, entries[|entries| - 1].1;
      var front := SanitizedEntries(g, p, entries[..|entries| - 1], depth, seen);
      EntriesAreSmall(g, p, entries[..|entries| - 1], depth, seen);
      SanitizedIsSmall(g, p, value, depth + 1, seen);
      EntryAdds(front, key, if p.sensitive(key) then REDACTED else Sanitized(g, p, value, depth + 1, seen));
    }
  }

  lemma MarkedIsSmall(clean: map<string, Clean>, truncated: bool, levels: nat)
    requires levels > 0 && |clean| <= MAX_ENTRIES && forall k | k in clean :: Small(clean[k], levels - 1)
    ensures Small(CMap(Marked(clean, truncated)), levels)
  {
    EntryAdds(clean, LOGGING_TRUNCATED, TRUNCATION);
  }

  lemma EntryAdds(entries: map<string, Clean>, key: string, c: Clean)
    ensures |entries[key := c]| <= |entries| + 1
  {
    if key in entries {
      assert entries[key := c].Keys == entries.Keys;
    } else {
      assert entries[key := c].Keys == entries.Keys + {key};
    }
  }

  lemma {:induction false} ItemsAreSmall(g: Graph, p: Policy, items: seq<Node>, depth: nat, seen: set<nat>)
    requires Closed(g) && depth <= MAX_DEPTH && forall i | 0 <= i < |items| :: items[i] in g
    ensures var clean := SanitizedItems(g, p, items, depth, seen);
            |clean| == |items| && forall i | 0 <= i < |clean| :: Small(clean[i], Levels(depth) - 1)
    decreases MAX_DEPTH + 1 - depth, 2, |items|
  {
    if items != [] {
      ItemsAreSmall(g, p, items[..|items| - 1], depth, seen);
      SanitizedIsSmall(g, p, items[|items| - 1], depth + 1, seen);
    }
  }

  // ---------------------------------------------------------------- secrets

  predicate Hidden(p: Policy, key: string) {
    p.reserved(key) || p.sensitive(key)
  }

  predicate SameEntry(p: Policy, key: string, value: Node, value': Node, visible: set<Node>) {
    Hidden(p, key) || (value == value' && value in visible)
  }

  /** Two shapes differ at most in what stands under sensitive or reserved keys and in skipped fields. */
  ghost predicate AlikeShapes(a: Shape, b: Shape, p: Policy, visible: set<Node>) {
    match a
    case Map(stringKeys, entries) =>
      b.Map? && b.stringKeys == stringKeys && |b.entries| == |entries|
      && forall i | 0 <= i < |entries| ::
           b.entries[i].0 == entries[i].0 && SameEntry(p, entries[i].0, entries[i].1, b.entries[i].1, visible)
    case Struct(fields) =>
      b.Struct? && |b.fields| == |fields|
      && forall i | 0 <= i < |fields| ::
           && b.fields[i].name == fields[i].name && b.fields[i].skipped == fields[i].skipped
           && (fields[i].skipped || SameEntry(p, fields[i].name, fields[i].value, b.fields[i].value, visible))
    case _ => b == a && Children(a) <= visible
  }

  /** Two graphs agree on the visible values: those reached without passing a sensitive or reserved key. What hides
      behind such a key may be anything. */
  ghost predicate Alike(g: Graph, h: Graph, p: Policy, visible: set<Node>) {
    Closed(g) && Closed(h) && forall n | n in visible :: n in g && n in h && AlikeShapes(g[n], h[n], p, visible)
  }

  /** What is logged does not depend on anything behind a sensitive key. */
  lemma {:induction false} SecretsNeverShow(
      g: Graph, h: Graph, p: Policy, visible: set<Node>, n: Node, depth: nat, seen: set<nat>)
    requires Alike(g, h, p, visible) && n in visible
    ensures Sanitized(g, p, n, depth, seen) == Sanitized(h, p, n, depth, seen)
    decreases MAX_DEPTH + 1 - depth, if g[n].Interface? then 4 else 3
  {
    assert AlikeShapes(g[n], h[n], p, visible);
    if !g[n].Invalid? && depth <= MAX_DEPTH {
      match g[n]
      case Interface(elem) => if elem.Some? { SecretsNeverShow(g, h, p, visible, elem.value, depth, seen); }
      case Pointer(target) =>
        if target.Some? && target.value.0 !in seen {
          SecretsNeverShow(g, h, p, visible, target.value.1, depth + 1, seen + {target.value.0});
        }
      case Map(stringKeys, entries) =>
        SecretEntries(g, h, p, visible, First(entries), First(h[n].entries), depth, seen);
      case Struct(fields) =>
        PairsAreFields(fields, p);
        PairsAreFields(h[n].fields, p);
        AlikeFields(fields, h[n].fields, p, visible);
        SecretEntries(g, h, p, visible, First(Pairs(fields, p)), First(Pairs(h[n].fields, p)), depth, seen);
      case List(_, items) => SecretItems(g, h, p, visible, First(items), depth, seen);
      case _ =>
    }
  }

  lemma {:induction false} AlikeFields(a: seq<Field>, b: seq<Field>, p: Policy, visible: set<Node>)
    requires AlikeShapes(Struct(a), Struct(b), p, visible)
    ensures var x, y := Pairs(a, p), Pairs(b, p);
            |x| == |y| && forall i | 0 <= i < |x| :: x[i].0 == y[i].0 && SameEntry(p, x[i].0, x[i].1, y[i].1, visible)
  {
    if a != [] { AlikeFields(a[..|a| - 1], b[..|b| - 1], p, visible); }
  }

  lemma {:induction false} SecretEntries(
      g: Graph, h: Graph, p: Policy, visible: set<Node>, a: seq<(string, Node)>, b: seq<(string, Node)>, depth: nat,
      seen: set<nat>)
    requires Alike(g, h, p, visible) && depth <= MAX_DEPTH && |a| == |b|
    requires forall i | 0 <= i < |a| ::
               && a[i].1 in g && b[i].1 in h && a[i].0 == b[i].0
               && SameEntry(p, a[i].0, a[i].1, b[i].1, visible)
    ensures SanitizedEntries(g, p, a, depth, seen) == SanitizedEntries(h, p, b, depth, seen)
    decreases MAX_DEPTH + 1 - depth, 2, |a|
  {
    if a != [] {
      SecretEntries(g, h, p, visible, a[..|a| - 1], b[..|b| - 1], depth, seen);
      var key, value := a[|a| - 1].0, a[|a| - 1].1;
      if !Hidden(p, key) { SecretsNeverShow(g, h, p, visible, value, depth + 1, seen); }
    }
  }

  lemma {:induction false} SecretItems(
      g: Graph, h: Graph, p: Policy, visible: set<Node>, items: seq<Node>, depth: nat, seen: set<nat>)
    requires Alike(g, h, p, visible) && depth <= MAX_DEPTH
    requires forall i | 0 <= i < |items| :: items[i] in g && items[i] in h && items[i] in visible
    ensures SanitizedItems(g, p, items, depth, seen) == SanitizedItems(h, p, items, depth, seen)
    decreases MAX_DEPTH + 1 - depth, 2, |items|
  {
    if items != [] {
      SecretItems(g, h, p, visible, items[..|items| - 1], depth, seen);
      SecretsNeverShow(g, h, p, visible, items[|items| - 1], depth + 1, seen);
    }
  }

  // ---------------------------------------------------------------- what does show

  /** What a value is to look like in the log: pointers and interfaces show what they lead to, unless the way comes
      back to a pointer on it; texts show as far as they may be long, scalars as they are; of a map or struct the
      first 64 entries, of a list the first 64 items, show in turn, with a mark if there are more; what stands under a
      sensitive key is redacted, and what stands under a reserved one left out. */
  ghost predicate Depicts(g: Graph, p: Policy, n: Node, depth: nat, seen: set<nat>, c: Clean)
    requires Closed(g) && n in g
    decreases MAX_DEPTH + 1 - depth, if g[n].Interface? then 4 else 3
  {
    if g[n].Invalid? then c == CNull
    else if depth > MAX_DEPTH then c == TRUNCATION
    else match g[n]
      case Interface(elem) => if elem.None? then c == CNull else Depicts(g, p, elem.value, depth, seen, c)
      case Pointer(target) =>
        if target.None? then c == CNull
        else if target.value.0 in seen then c == CYCLE
        else Depicts(g, p, target.value.1, depth + 1, seen + {target.value.0}, c)
      case String(text) => c == CText(if |text| <= 4096 then text else Bounded(text))
      case Scalar(image) => c == CScalar(image)
      case Map(stringKeys, entries) =>
        if !stringKeys then c == UNSUPPORTED else c.CMap? && EntriesDepicted(g, p, entries, depth, seen, c.entries)
      case Struct(fields) =>
        PairsAreFields(fields, p);
        c.CMap? && EntriesDepicted(g, p, Pairs(fields, p), depth, seen, c.entries)
      case List(isNil, items) =>
        if isNil then c == CNull
        else
          var shown := if |items| <= 64 then |items| else 64;
          && c.CList? && |c.items| == shown + (if |items| > 64 then 1 else 0)
          && (forall i | 0 <= i < shown :: Depicts(g, p, items[i], depth + 1, seen, c.items[i]))
          && (|items| > 64 ==> c.items[64] == TRUNCATION)
      case Other => c == UNSUPPORTED
  }

  ghost predicate EntriesDepicted(
      g: Graph, p: Policy, entries: seq<(string, Node)>, depth: nat, seen: set<nat>, clean: map<string, Clean>)
    requires Closed(g) && depth <= MAX_DEPTH && forall i | 0 <= i < |entries| :: entries[i].1 in g
    decreases MAX_DEPTH + 1 - depth, 2
  {
    var shown := First(entries);
    && (forall k :: k in clean <==> IsMark(entries, k) || (!p.reserved(k) && IsKey(shown, k)))
    && (forall k | IsMark(entries, k) :: clean[k] == TRUNCATION)
    && (forall i | 0 <= i < |shown| && !p.reserved(shown[i].0) && LastOfKey(shown, i) && !IsMark(entries, shown[i].0) ::
          if p.sensitive(shown[i].0) then clean[shown[i].0] == REDACTED
          else Depicts(g, p, shown[i].1, depth + 1, seen, clean[shown[i].0]))
  }

  /** The key that says there is more than shows. */
  predicate IsMark(entries: seq<(string, Node)>, k: string) {
    |entries| > 64 && k == "logging_truncated"
  }

  ghost predicate IsKey(entries: seq<(string, Node)>, k: string) {
    exists i :: 0 <= i < |entries| && entries[i].0 == k
  }

  predicate LastOfKey(entries: seq<(string, Node)>, i: nat)
    requires i < |entries|
  {
    forall j | i < j < |entries| :: entries[j].0 != entries[i].0
  }

  lemma {:induction false} LastOfKeyExists(entries: seq<(string, Node)>, k: string) returns (i: nat)
    requires IsKey(entries, k)
    ensures i < |entries| && entries[i].0 == k && LastOfKey(entries, i)
  {
    var n := |entries| - 1;
    if entries[n].0 == k {
      i := n;
    } else {
      var j :| 0 <= j < |entries| && entries[j].0 == k;
      assert entries[..n][j].0 == k;
      i := LastOfKeyExists(entries[..n], k);
      assert forall j | i < j < n :: entries[..n][j] == entries[j];
    }
  }

  lemma IsKeySnoc(entries: seq<(string, Node)>, k: string)
    requires entries != []
    ensures IsKey(entries, k) <==> k == entries[|entries| - 1].0 || IsKey(entries[..|entries| - 1], k)
  {
    var front := entries[..|entries| - 1];
    if IsKey(front, k) {
      var i :| 0 <= i < |front| && front[i].0 == k;
      assert entries[i].0 == k;
    }
    if IsKey(entries, k) {
      var i :| 0 <= i < |entries| && entries[i].0 == k;
      if i < |front| { assert front[i].0 == k; }
    }
  }

  /** The sanitized entries are those under keys that are not reserved: redacted where the key is sensitive, and
      otherwise the sanitized form of the last value under the key. */
  lemma {:induction false} EntriesShow(g: Graph, p: Policy, entries: seq<(string, Node)>, depth: nat, seen: set<nat>)
    requires Closed(g) && depth <= MAX_DEPTH && forall i | 0 <= i < |entries| :: entries[i].1 in g
    ensures var clean := SanitizedEntries(g, p, entries, depth, seen);
            && (forall k :: k in clean <==> !p.reserved(k) && IsKey(entries, k))
            && (forall i | 0 <= i < |entries| && !p.reserved(entries[i].0) && LastOfKey(entries, i) ::
                  clean[entries[i].0]
                    == if p.sensitive(entries[i].0) then REDACTED else Sanitized(g, p, entries[i].1, depth + 1, seen))
    decreases |entries|
  {
    hide Sanitized, Closed, IsKey;
    if entries == [] {
      forall k ensures !IsKey(entries, k) { NoKey(k); }
    } else {
      var n := |entries| - 1;
      var front := entries[..n];
      EntriesShow(g, p, front, depth, seen);
      forall k ensures IsKey(entries, k) <==> k == entries[n].0 || IsKey(front, k) { IsKeySnoc(entries, k); }
      forall i | 0 <= i < n && LastOfKey(entries, i) ensures LastOfKey(front, i) && entries[i].0 != entries[n].0 {
        assert front[i] == entries[i];
      }
    }
  }

  lemma NoKey(k: string)
    ensures !IsKey([], k)
  {
  }

  /** The sanitized items are those of the items, in order. */
  lemma {:induction false} ItemsShow(g: Graph, p: Policy, items: seq<Node>, depth: nat, seen: set<nat>)
    requires Closed(g) && depth <= MAX_DEPTH && forall i | 0 <= i < |items| :: items[i] in g
    ensures var clean := SanitizedItems(g, p, items, depth, seen);
            && |clean| == |items|
            && forall i | 0 <= i < |items| :: clean[i] == Sanitized(g, p, items[i], depth + 1, seen)
    decreases |items|
  {
    hide Sanitized, Closed;
    if items != [] { ItemsShow(g, p, items[..|items| - 1], depth, seen); }
  }

  /** How many fields before this one are neither skipped nor reserved. */
  function ShownBefore(fields: seq<Field>, p: Policy, i: nat): nat
    requires i <= |fields|
  {
    if i == 0 then 0
    else ShownBefore(fields, p, i - 1) + if fields[i - 1].skipped || p.reserved(fields[i - 1].name) then 0 else 1
  }

  predicate IsShown(field: Field, p: Policy) {
    !field.skipped && !p.reserved(field.name)
  }

  lemma {:induction false} PairsCount(fields: seq<Field>, p: Policy, i: nat)
    requires i <= |fields|
    ensures |Pairs(fields[..i], p)| == ShownBefore(fields, p, i)
    decreases i
  {
    if i > 0 {
      PairsCount(fields, p, i - 1);
      PairsGrow(fields, p, i - 1);
    }
  }

  /** A field that shows stands among the pairs where those before it say. */
  lemma FieldHasPair(fields: seq<Field>, p: Policy, i: nat)
    requires i < |fields| && IsShown(fields[i], p)
    ensures ShownBefore(fields, p, i) < |Pairs(fields, p)|
    ensures Pairs(fields, p)[ShownBefore(fields, p, i)] == (fields[i].name, fields[i].value)
  {
    PairsCount(fields, p, i);
    PairsGrow(fields, p, i);
  }

  /** And each pair is such a field's. */
  lemma {:induction false} PairHasField(fields: seq<Field>, p: Policy, n: nat, k: nat) returns (i: nat)
    requires n <= |fields| && k < |Pairs(fields[..n], p)|
    ensures i < n && IsShown(fields[i], p) && ShownBefore(fields, p, i) == k
    ensures Pairs(fields[..n], p)[k] == (fields[i].name, fields[i].value)
    decreases n
  {
    if n == 0 {
      assert false;
    } else {
      PairsGrow(fields, p, n - 1);
      PairsCount(fields, p, n - 1);
      if k < |Pairs(fields[..n - 1], p)| {
        i := PairHasField(fields, p, n - 1, k);
      } else {
        i := n - 1;
      }
    }
  }

  /** What is logged looks as it should. */
  lemma {:induction false} LooksAsItShould(g: Graph, p: Policy, n: Node, depth: nat, seen: set<nat>)
    requires Closed(g) && n in g
    ensures Depicts(g, p, n, depth, seen, Sanitized(g, p, n, depth, seen))
    decreases MAX_DEPTH + 1 - depth, if g[n].Interface? then 4 else 3
  {
    if !g[n].Invalid? && depth <= MAX_DEPTH {
      match g[n]
      case Interface(elem) => if elem.Some? { LooksAsItShould(g, p, elem.value, depth, seen); }
      case Pointer(target) =>
        if target.Some? && target.value.0 !in seen {
          LooksAsItShould(g, p, target.value.1, depth + 1, seen + {target.value.0});
        }
      case String(text) => BoundedIsSafe(text);
      case Map(stringKeys, entries) => EntriesLookAsTheyShould(g, p, entries, depth, seen);
      case Struct(fields) =>
        PairsAreFields(fields, p);
        EntriesLookAsTheyShould(g, p, Pairs(fields, p), depth, seen);
      case List(_, items) =>
        ItemsShow(g, p, First(items), depth, seen);
        forall i | 0 <= i < |First(items)|
          ensures Depicts(g, p, items[i], depth + 1, seen, Sanitized(g, p, items[i], depth + 1, seen))
        {
          LooksAsItShould(g, p, items[i], depth + 1, seen);
        }
      case _ =>
    }
  }

  lemma {:induction false} EntriesLookAsTheyShould(
      g: Graph, p: Policy, entries: seq<(string, Node)>, depth: nat, seen: set<nat>)
    requires Closed(g) && depth <= MAX_DEPTH && forall i | 0 <= i < |entries| :: entries[i].1 in g
    ensures EntriesDepicted(g, p, entries, depth, seen,
                            Marked(SanitizedEntries(g, p, First(entries), depth, seen), |entries| > MAX_ENTRIES))
    decreases MAX_DEPTH + 1 - depth, 2
  {
    hide Sanitized, Depicts, IsKey, LastOfKey;
    var shown := First(entries);
    EntriesShow(g, p, shown, depth, seen);
    forall i | 0 <= i < |shown|
      ensures Depicts(g, p, shown[i].1, depth + 1, seen, Sanitized(g, p, shown[i].1, depth + 1, seen))
    {
      LooksAsItShould(g, p, shown[i].1, depth + 1, seen);
    }
  }

  /** And only it does: there is one way a value is to look. */
  lemma {:induction false} LooksOneWay(g: Graph, p: Policy, n: Node, depth: nat, seen: set<nat>, c: Clean)
    requires Closed(g) && n in g && Depicts(g, p, n, depth, seen, c)
    ensures c == Sanitized(g, p, n, depth, seen)
    decreases MAX_DEPTH + 1 - depth, if g[n].Interface? then 4 else 3
  {
    if !g[n].Invalid? && depth <= MAX_DEPTH {
      match g[n]
      case Interface(elem) => if elem.Some? { LooksOneWay(g, p, elem.value, depth, seen, c); }
      case Pointer(target) =>
        if target.Some? && target.value.0 !in seen {
          LooksOneWay(g, p, target.value.1, depth + 1, seen + {target.value.0}, c);
        }
      case String(text) => hide Bounded;
      case Map(stringKeys, entries) => if stringKeys { EntriesLookOneWay(g, p, entries, depth, seen, c.entries); }
      case Struct(fields) =>
        PairsAreFields(fields, p);
        EntriesLookOneWay(g, p, Pairs(fields, p), depth, seen, c.entries);
      case List(isNil, items) =>
        if !isNil { ItemsLookOneWay(g, p, items, depth, seen, c); }
      case _ =>
    }
  }

  lemma {:induction false} ItemsLookOneWay(
      g: Graph, p: Policy, items: seq<Node>, depth: nat, seen: set<nat>, c: Clean)
    requires Closed(g) && depth <= MAX_DEPTH && (forall i | 0 <= i < |items| :: items[i] in g) && c.CList?
    requires var shown := First(items);
             && |c.items| == |shown| + (if |items| > 64 then 1 else 0)
             && (forall i | 0 <= i < |shown| :: Depicts(g, p, shown[i], depth + 1, seen, c.items[i]))
             && (|items| > 64 ==> c.items[64] == TRUNCATION)
    ensures c.items
         == SanitizedItems(g, p, First(items), depth, seen) + if |items| > MAX_ENTRIES then [TRUNCATION] else []
    decreases MAX_DEPTH + 1 - depth, 2
  {
    hide Sanitized, Depicts, SanitizedItems;
    ItemsShow(g, p, First(items), depth, seen);
    forall i | 0 <= i < |First(items)| ensures c.items[i] == Sanitized(g, p, items[i], depth + 1, seen) {
      LooksOneWay(g, p, items[i], depth + 1, seen, c.items[i]);
    }
  }

  lemma {:induction false} EntriesLookOneWay(
      g: Graph, p: Policy, entries: seq<(string, Node)>, depth: nat, seen: set<nat>, clean: map<string, Clean>)
    requires Closed(g) && depth <= MAX_DEPTH && forall i | 0 <= i < |entries| :: entries[i].1 in g
    requires EntriesDepicted(g, p, entries, depth, seen, clean)
    ensures clean == Marked(SanitizedEntries(g, p, First(entries), depth, seen), |entries| > MAX_ENTRIES)
    decreases MAX_DEPTH + 1 - depth, 2
  {
    hide Sanitized, Depicts, IsKey, LastOfKey, SanitizedEntries;
    var shown := First(entries);
    EntriesShow(g, p, shown, depth, seen);
    var expected := Marked(SanitizedEntries(g, p, shown, depth, seen), |entries| > MAX_ENTRIES);
    assert clean.Keys == expected.Keys;
    forall k | k in clean ensures clean[k] == expected[k] {
      if !IsMark(entries, k) {
        var i := LastOfKeyExists(shown, k);
        if !p.sensitive(k) { LooksOneWay(g, p, shown[i].1, depth + 1, seen, clean[k]); }
      }
    }
  }
}
