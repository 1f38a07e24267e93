/** The check that a JSON text has no repeated object key and nothing after its value, as a consumer of the
    decoder's tokens. */
module JsonTokens {
  import opened Shared

  /** The decoder's tokens. Strings, keys included, are decoded; an atom is a number, a boolean or null. */
  datatype Token = BeginObject | EndObject | BeginArray | EndArray | Text(value: string) | Atom(value: string)

  // ---------------------------------------------------------------- trees

  datatype Json = Leaf(token: Token) | Array(items: Items) | Object(members: Members)
  datatype Items = NoItem | Item(head: Json, tail: Items)
  datatype Members = NoMember | Member(key: string, value: Json, rest: Members)

  function Tokens(j: Json): seq<Token> {
    match j
    case Leaf(token) => [token]
    case Array(items) => [BeginArray] + ItemTokens(items)
    case Object(members) => [BeginObject] + MemberTokens(members)
  }

  /** The rest of an array, its closing bracket included. */
  function ItemTokens(items: Items): seq<Token> {
    match items
    case NoItem => [EndArray]
    case Item(head, tail) => Tokens(head) + ItemTokens(tail)
  }

  /** The rest of an object, its closing brace included. */
  function MemberTokens(members: Members): seq<Token> {
    match members
    case NoMember => [EndObject]
    case Member(key, value, rest) => [Text(key)] + Tokens(value) + MemberTokens(rest)
  }

  /** Leaves are texts or atoms, and every object at every depth has distinct keys. */
  predicate Distinct(j: Json) {
    match j
    case Leaf(token) => token.Text? || token.Atom?
    case Array(items) => DistinctItems(items)
    case Object(members) => DistinctMembers(members, {})
  }

  predicate DistinctItems(items: Items) {
    items.Item? ==> Distinct(items.head) && DistinctItems(items.tail)
  }

  predicate DistinctMembers(members: Members, seen: set<string>) {
    members.Member? ==>
      members.key !in seen && Distinct(members.value) && DistinctMembers(members.rest, seen + {members.key})
  }

  // ---------------------------------------------------------------- what distinct means, place by place

  /** The value at a place in the tree: the way there is by the number of the item or member at each level. */
  function At(j: Json, way: seq<nat>): Option<Json>
    decreases |way|, 0
  {
    if way == [] then Some(j)
    else match j
      case Leaf(_) => None
      case Array(items) => if way[0] < |Heads(items)| then At(Heads(items)[way[0]], way[1..]) else None
      case Object(members) => if way[0] < |Values(members)| then At(Values(members)[way[0]], way[1..]) else None
  }

  function Heads(items: Items): seq<Json> {
    if items.NoItem? then [] else [items.head] + Heads(items.tail)
  }

  function Values(members: Members): seq<Json> {
    if members.NoMember? then [] else [members.value] + Values(members.rest)
  }

  function Keys(members: Members): seq<string> {
    if members.NoMember? then [] else [members.key] + Keys(members.rest)
  }

  /** No two members of an object have one key, and a leaf is a text or an atom. */
  ghost predicate RightHere(j: Json) {
    match j
    case Leaf(token) => token.Text? || token.Atom?
    case Array(_) => true
    case Object(members) => forall a, b | 0 <= a < b < |Keys(members)| :: Keys(members)[a] != Keys(members)[b]
  }

  ghost predicate RightAt(j: Json, way: seq<nat>) {
    At(j, way).Some? ==> RightHere(At(j, way).value)
  }

  /** A tree is distinct exactly when every value at every place in it is right. */
  lemma {:induction false} DistinctEverywhere(j: Json)
    ensures Distinct(j) <==> forall way :: RightAt(j, way)
    decreases j
  {
    var below := match j
      case Leaf(_) => []
      case Array(items) => Heads(items)
      case Object(members) => Values(members);
    match j {
      case Leaf(_) =>
      case Array(items) => ItemsEverywhere(items);
      case Object(members) =>
        MembersEverywhere(members, {});
        KeysDiffer(members, {});
    }
    assert RightHere(j) && AllRight(below) <==> Distinct(j);
    RightBelow(j, below);
  }

  ghost predicate AllRight(values: seq<Json>) {
    forall i | 0 <= i < |values| :: forall way :: RightAt(values[i], way)
  }

  lemma {:induction false} RightBelow(j: Json, below: seq<Json>)
    requires below == match j
               case Leaf(_) => []
               case Array(items) => Heads(items)
               case Object(members) => Values(members)
    ensures (forall way :: RightAt(j, way)) <==> RightHere(j) && AllRight(below)
  {
    if forall way :: RightAt(j, way) {
      assert RightAt(j, []);
      forall i, way | 0 <= i < |below| ensures RightAt(below[i], way) {
        assert RightAt(j, [i] + way) && ([i] + way)[1..] == way;
      }
    }
    if RightHere(j) && AllRight(below) {
      forall way ensures RightAt(j, way) {
        if way != [] && way[0] < |below| { assert RightAt(below[way[0]], way[1..]); }
      }
    }
  }

  lemma {:induction false} ItemsEverywhere(items: Items)
    ensures DistinctItems(items) <==> AllRight(Heads(items))
    decreases items
  {
    if items.Item? {
      DistinctEverywhere(items.head);
      ItemsEverywhere(items.tail);
      AllRightCons(items.head, Heads(items.tail));
    }
  }

  lemma {:induction false} MembersEverywhere(members: Members, seen: set<string>)
    ensures DistinctMembers(members, seen) <==> KeysNew(members, seen) && AllRight(Values(members))
    decreases members
  {
    if members.Member? {
      DistinctEverywhere(members.value);
      MembersEverywhere(members.rest, seen + {members.key});
      AllRightCons(members.value, Values(members.rest));
    }
  }

  lemma {:induction false} AllRightCons(first: Json, rest: seq<Json>)
    ensures AllRight([first] + rest) <==> (forall way :: RightAt(first, way)) && AllRight(rest)
  {
    hide RightAt;
    var all := [first] + rest;
    assert all[0] == first;
    assert forall i | 0 <= i < |rest| :: all[i + 1] == rest[i];
  }

  /** Each key is new against those seen and those before it. */
  predicate KeysNew(members: Members, seen: set<string>) {
    members.Member? ==> members.key !in seen && KeysNew(members.rest, seen + {members.key})
  }

  lemma {:induction false} KeysDiffer(members: Members, seen: set<string>)
    ensures KeysNew(members, seen) <==> NewAndDifferent(Keys(members), seen)
    decreases members
  {
    if members.Member? {
      KeysDiffer(members.rest, seen + {members.key});
      NewAndDifferentCons(members.key, Keys(members.rest), seen);
    }
  }

  ghost predicate NewAndDifferent(keys: seq<string>, seen: set<string>) {
    && (forall a | 0 <= a < |keys| :: keys[a] !in seen)
    && (forall a, b | 0 <= a < b < |keys| :: keys[a] != keys[b])
  }

  lemma {:induction false} NewAndDifferentCons(key: string, rest: seq<string>, seen: set<string>)
    ensures NewAndDifferent([key] + rest, seen) <==> key !in seen && NewAndDifferent(rest, seen + {key})
  {
    var keys := [key] + rest;
    if NewAndDifferent(keys, seen) {
      forall a | 0 <= a < |rest| ensures rest[a] !in seen + {key} {
        assert keys[a + 1] == rest[a] && keys[0] == key;
      }
      forall a, b | 0 <= a < b < |rest| ensures rest[a] != rest[b] {
        assert keys[a + 1] == rest[a] && keys[b + 1] == rest[b];
      }
      assert keys[0] == key;
    }
    if key !in seen && NewAndDifferent(rest, seen + {key}) {
      forall a | 0 <= a < |keys| ensures keys[a] !in seen {
        if a > 0 { assert keys[a] == rest[a - 1]; }
      }
      forall a, b | 0 <= a < b < |keys| ensures keys[a] != keys[b] {
        assert keys[b] == rest[b - 1] && (a > 0 ==> keys[a] == rest[a - 1]);
      }
    }
  }

  predicate Closing(t: Token) {
    t.EndObject? || t.EndArray?
  }

  lemma TokensStart(j: Json)
    requires Distinct(j)
    ensures Tokens(j) != [] && !Closing(Tokens(j)[0])
  {
  }

  // ---------------------------------------------------------------- the check, as a function of the tokens ahead

  /** What is left after one value without repeated keys, if one lies ahead. */
  function Value(ts: seq<Token>): (rest: Option<seq<Token>>)
    ensures rest.Some? ==> |rest.value| < |ts|
    decreases |ts|, 1
  {
    if ts == [] then None
    else match ts[0]
      case Text(_) => Some(ts[1..])
      case Atom(_) => Some(ts[1..])
      case BeginObject => ObjectRest(ts[1..], {})
      case BeginArray => ArrayRest(ts[1..])
      case _ => None
  }

  function ArrayRest(ts: seq<Token>): (rest: Option<seq<Token>>)
    ensures rest.Some? ==> |rest.value| < |ts|
    decreases |ts|, 2
  {
    if ts == [] then None
    else if Closing(ts[0]) then if ts[0].EndArray? then Some(ts[1..]) else None
    else
      var next := Value(ts);
      if next.None? then None else ArrayRest(next.value)
  }

  function ObjectRest(ts: seq<Token>, seen: set<string>): (rest: Option<seq<Token>>)
    ensures rest.Some? ==> |rest.value| < |ts|
    decreases |ts|, 2
  {
    if ts == [] then None
    else if Closing(ts[0]) then if ts[0].EndObject? then Some(ts[1..]) else None
    else if !ts[0].Text? || ts[0].value in seen then None
    else
      var next := Value(ts[1..]);
      if next.None? then None else ObjectRest(next.value, seen + {ts[0].value})
  }

  // ---------------------------------------------------------------- what the function means

  /** Accepted tokens are the tokens of a tree without repeated keys, then the rest. */
  lemma {:induction false} AcceptedIsTree(ts: seq<Token>) returns (j: Json)
    requires Value(ts).Some?
    ensures Distinct(j) && ts == Tokens(j) + Value(ts).value
    decreases |ts|, 1
  {
    if ts[0].BeginObject? {
      var members := AcceptedIsMembers(ts[1..], {});
      j := Object(members);
    } else if ts[0].BeginArray? {
      var items := AcceptedIsItems(ts[1..]);
      j := Array(items);
    } else {
      j := Leaf(ts[0]);
    }
  }

  lemma {:induction false} AcceptedIsItems(ts: seq<Token>) returns (items: Items)
    requires ArrayRest(ts).Some?
    ensures DistinctItems(items) && ts == ItemTokens(items) + ArrayRest(ts).value
    decreases |ts|, 2
  {
    if Closing(ts[0]) {
      items := NoItem;
    } else {
      var head := AcceptedIsTree(ts);
      var tail := AcceptedIsItems(Value(ts).value);
      items := Item(head, tail);
    }
  }

  lemma {:induction false} AcceptedIsMembers(ts: seq<Token>, seen: set<string>) returns (members: Members)
    requires ObjectRest(ts, seen).Some?
    ensures DistinctMembers(members, seen) && ts == MemberTokens(members) + ObjectRest(ts, seen).value
    decreases |ts|, 2
  {
    if Closing(ts[0]) {
      members := NoMember;
    } else {
      var value := AcceptedIsTree(ts[1..]);
      var rest := AcceptedIsMembers(Value(ts[1..]).value, seen + {ts[0].value});
      members := Member(ts[0].value, value, rest);
      assert ts == [ts[0]] + ts[1..];
    }
  }

  /** The tokens of a tree without repeated keys are accepted, and exactly they are consumed. */
  lemma {:induction false} TreeIsAccepted(j: Json, rest: seq<Token>)
    requires Distinct(j)
    ensures Value(Tokens(j) + rest) == Some(rest)
    decreases j
  {
    var ts := Tokens(j) + rest;
    match j
    case Leaf(token) => assert ts[1..] == rest;
    case Array(items) =>
      ItemsAreAccepted(items, rest);
      assert ts[1..] == ItemTokens(items) + rest;
    case Object(members) =>
      MembersAreAccepted(members, {}, rest);
      assert ts[1..] == MemberTokens(members) + rest;
  }

  lemma {:induction false} ItemsAreAccepted(items: Items, rest: seq<Token>)
    requires DistinctItems(items)
    ensures ArrayRest(ItemTokens(items) + rest) == Some(rest)
    decreases items
  {
    var ts := ItemTokens(items) + rest;
    match items
    case NoItem => assert ts[1..] == rest;
    case Item(head, tail) =>
      assert ts == Tokens(head) + (ItemTokens(tail) + rest);
      TokensStart(head);
      TreeIsAccepted(head, ItemTokens(tail) + rest);
      ItemsAreAccepted(tail, rest);
  }

  lemma {:induction false} MembersAreAccepted(members: Members, seen: set<string>, rest: seq<Token>)
    requires DistinctMembers(members, seen)
    ensures ObjectRest(MemberTokens(members) + rest, seen) == Some(rest)
    decreases members
  {
    var ts := MemberTokens(members) + rest;
    match members
    case NoMember => assert ts[1..] == rest;
    case Member(key, value, others) =>
      assert ts[1..] == Tokens(value) + (MemberTokens(others) + rest);
      TreeIsAccepted(value, MemberTokens(others) + rest);
      MembersAreAccepted(others, seen + {key}, rest);
  }

  /** One value lies ahead, and nothing else, exactly when the tokens are those of a tree without repeated keys. */
  lemma AcceptsExactlyTrees(ts: seq<Token>)
    ensures Value(ts) == Some([]) <==> exists j :: Distinct(j) && ts == Tokens(j)
  {
    if Value(ts) == Some([]) {
      var j := AcceptedIsTree(ts);
      assert ts == Tokens(j);
    }
    if j :| Distinct(j) && ts == Tokens(j) {
      TreeIsAccepted(j, []);
      assert ts == Tokens(j) + [];
    }
  }

  /** The tokens are those of one acceptable value. */
  predicate IsValue(ts: seq<Token>) {
    Value(ts) == Some([])
  }

  /** The members of an object, each a key and the tokens of its value. */
  function Listed(members: seq<(string, seq<Token>)>): seq<Token> {
    if members == [] then [] else [Text(members[0].0)] + members[0].1 + Listed(members[1..])
  }

  function Joined(items: seq<seq<Token>>): seq<Token> {
    if items == [] then [] else items[0] + Joined(items[1..])
  }

  lemma {:induction false} ValueThen(ts: seq<Token>, rest: seq<Token>)
    requires IsValue(ts)
    ensures Value(ts + rest) == Some(rest) && ts != [] && !Closing(ts[0])
  {
    var j := AcceptedIsTree(ts);
    assert ts == Tokens(j);
    TokensStart(j);
    TreeIsAccepted(j, rest);
  }

  /** Acceptable values, one after the other between brackets, are an acceptable array. */
  lemma {:induction false} ArraysAreValues(items: seq<seq<Token>>)
    requires forall i | 0 <= i < |items| :: IsValue(items[i])
    ensures IsValue([BeginArray] + Joined(items) + [EndArray])
  {
    var ts := [BeginArray] + Joined(items) + [EndArray];
    assert ts[1..] == Joined(items) + [EndArray];
    ItemsAreValues(items);
  }

  lemma {:induction false} ItemsAreValues(items: seq<seq<Token>>)
    requires forall i | 0 <= i < |items| :: IsValue(items[i])
    ensures ArrayRest(Joined(items) + [EndArray]) == Some([])
  {
    var ts := Joined(items) + [EndArray];
    if items != [] {
      var rest := Joined(items[1..]) + [EndArray];
      assert ts == items[0] + rest;
      ValueThen(items[0], rest);
      ItemsAreValues(items[1..]);
    }
  }

  /** Acceptable values under keys, one after the other between braces, are an acceptable object exactly if no two keys
      are the same. */
  lemma {:induction false} ObjectsAreValuesExactly(members: seq<(string, seq<Token>)>)
    requires forall i | 0 <= i < |members| :: IsValue(members[i].1)
    ensures IsValue([BeginObject] + Listed(members) + [EndObject])
        <==> forall i, j | 0 <= i < j < |members| :: members[i].0 != members[j].0
  {
    var ts := [BeginObject] + Listed(members) + [EndObject];
    assert ts[1..] == Listed(members) + [EndObject];
    MembersAreValuesExactly(members, {});
    var keys := KeysOf(members);
    assert forall i | 0 <= i < |members| :: keys[i] == members[i].0;
  }

  function KeysOf(members: seq<(string, seq<Token>)>): seq<string> {
    seq(|members|, i requires 0 <= i < |members| => members[i].0)
  }

  lemma {:induction false} MembersAreValuesExactly(members: seq<(string, seq<Token>)>, seen: set<string>)
    requires forall i | 0 <= i < |members| :: IsValue(members[i].1)
    ensures ObjectRest(Listed(members) + [EndObject], seen)
         == if NewAndDifferent(KeysOf(members), seen) then Some([]) else None
  {
    var ts := Listed(members) + [EndObject];
    if members != [] {
      var (key, value) := members[0];
      var rest := Listed(members[1..]) + [EndObject];
      assert ts == [Text(key)] + (value + rest);
      assert ts[1..] == value + rest;
      ValueThen(value, rest);
      MembersAreValuesExactly(members[1..], seen + {key});
      NewAndDifferentCons(key, KeysOf(members[1..]), seen);
      assert KeysOf(members) == [key] + KeysOf(members[1..]);
    }
  }

  /** The token form of a tree is never the beginning of another's, so the value consumed is the only one there. */
  lemma TreesArePrefixFree(j: Json, k: Json, a: seq<Token>, b: seq<Token>)
    requires Distinct(j) && Distinct(k) && Tokens(j) + a == Tokens(k) + b
    ensures Tokens(j) == Tokens(k) && a == b
  {
    TreeIsAccepted(j, a);
    TreeIsAccepted(k, b);
    assert (Tokens(j) + a)[..|Tokens(j)|] == Tokens(j);
    assert (Tokens(k) + b)[..|Tokens(k)|] == Tokens(k);
  }

  /** Two different trees have different token forms. */
  lemma {:induction false} TreeIsUnique(j: Json, k: Json)
    requires Distinct(j) && Distinct(k) && Tokens(j) == Tokens(k)
    ensures j == k
    decreases j
  {
    match j
    case Leaf(token) => assert Tokens(k)[0] == token;
    case Array(items) =>
      assert Tokens(k)[0] == BeginArray;
      assert ItemTokens(items) == Tokens(j)[1..] == Tokens(k)[1..] == ItemTokens(k.items);
      ItemsAreUnique(items, k.items);
    case Object(members) =>
      assert Tokens(k)[0] == BeginObject;
      assert MemberTokens(members) == Tokens(j)[1..] == Tokens(k)[1..] == MemberTokens(k.members);
      MembersAreUnique(members, k.members, {});
  }

  lemma {:induction false} ItemsAreUnique(a: Items, b: Items)
    requires DistinctItems(a) && DistinctItems(b) && ItemTokens(a) == ItemTokens(b)
    ensures a == b
    decreases a
  {
    if a.Item? { TokensStart(a.head); }
    if b.Item? { TokensStart(b.head); }
    assert a.Item? ==> !Closing(ItemTokens(a)[0]);
    assert b.Item? ==> !Closing(ItemTokens(b)[0]);
    if a.Item? && b.Item? {
      TreesArePrefixFree(a.head, b.head, ItemTokens(a.tail), ItemTokens(b.tail));
      TreeIsUnique(a.head, b.head);
      ItemsAreUnique(a.tail, b.tail);
    }
  }

  lemma {:induction false} MembersAreUnique(a: Members, b: Members, seen: set<string>)
    requires DistinctMembers(a, seen) && DistinctMembers(b, seen) && MemberTokens(a) == MemberTokens(b)
    ensures a == b
    decreases a
  {
    assert a.Member? ==> MemberTokens(a)[0] == Text(a.key);
    assert b.Member? ==> MemberTokens(b)[0] == Text(b.key);
    if a.Member? && b.Member? {
      assert MemberTokens(a)[1..] == Tokens(a.value) + MemberTokens(a.rest);
      assert MemberTokens(b)[1..] == Tokens(b.value) + MemberTokens(b.rest);
      TreesArePrefixFree(a.value, b.value, MemberTokens(a.rest), MemberTokens(b.rest));
      TreeIsUnique(a.value, b.value);
      MembersAreUnique(a.rest, b.rest, seen + {a.key});
    }
  }

  // ---------------------------------------------------------------- the decoder and the check

  /** How the text ends after its tokens: cleanly, or in a syntax error that may look like more input. */
  datatype Ending = Eof | Bad(more: bool)

  datatype Reading = Next(token: Token) | AtEof | SyntaxError

  class Decoder {
    const tokens: seq<Token>
    const ending: Ending
    var pos: nat

    ghost predicate Valid()
      reads this
    {
      pos <= |tokens|
    }

    ghost function Ahead(): seq<Token>
      requires Valid()
      reads this
    {
      tokens[pos..]
    }

    constructor (tokens: seq<Token>, ending: Ending)
      ensures Valid() && this.tokens == tokens && this.ending == ending && Ahead() == tokens
    {
      this.tokens, this.ending, pos := tokens, ending, 0;
    }

    method Token() returns (r: Reading)
      requires Valid()
      modifies this
      ensures Valid()
      ensures old(Ahead()) == [] ==> pos == old(pos) && r == if ending.Eof? then AtEof else SyntaxError
      ensures old(Ahead()) != [] ==> r == Next(old(Ahead())[0]) && Ahead() == old(Ahead())[1..]
    {
      if pos == |tokens| { return if ending.Eof? then AtEof else SyntaxError; }
      r := Next(tokens[pos]);
      pos := pos + 1;
    }

    /** Whether the current array or object seems to go on: what lies ahead is not a closing bracket. */
    method More() returns (more: bool)
      requires Valid()
      ensures more == if Ahead() == [] then ending.Bad? && ending.more else !Closing(Ahead()[0])
    {
      more := if pos == |tokens| then ending.Bad? && ending.more else !Closing(tokens[pos]);
    }
  }

  /** Consumes one value. True means a repeated key or a malformed value; false, that exactly one value was consumed. */
  method DuplicateJsonValue(decoder: Decoder) returns (duplicate: bool)
    requires decoder.Valid()
    modifies decoder
    ensures decoder.Valid()
    ensures duplicate <==> Value(old(decoder.Ahead())).None?
    ensures !duplicate ==> decoder.Ahead() == Value(old(decoder.Ahead())).value
    decreases |decoder.tokens| - decoder.pos
  {
    var token := decoder.Token();
    if !token.Next? { return true; }
    match token.token
    case BeginObject =>
      ghost var body := decoder.Ahead();
      var seen: set<string> := {};
      var more := decoder.More();
      while more
        invariant decoder.Valid() && decoder.pos > old(decoder.pos)
        invariant ObjectRest(body, {}) == ObjectRest(decoder.Ahead(), seen)
        invariant more == if decoder.Ahead() == []
                          then decoder.ending.Bad? && decoder.ending.more
                          else !Closing(decoder.Ahead()[0])
        decreases |decoder.tokens| - decoder.pos
      {
        var keyToken := decoder.Token();
        if !keyToken.Next? || !keyToken.token.Text? { return true; }
        var key := keyToken.token.value;
        if key in seen { return true; }
        var inner := DuplicateJsonValue(decoder);
        if inner { return true; }
        seen := seen + {key};
        more := decoder.More();
      }
      var closing := decoder.Token();
      duplicate := closing != Next(EndObject);
    case BeginArray =>
      ghost var body := decoder.Ahead();
      var more := decoder.More();
      while more
        invariant decoder.Valid() && decoder.pos > old(decoder.pos)
        invariant ArrayRest(body) == ArrayRest(decoder.Ahead())
        invariant more == if decoder.Ahead() == []
                          then decoder.ending.Bad? && decoder.ending.more
                          else !Closing(decoder.Ahead()[0])
        decreases |decoder.tokens| - decoder.pos
      {
        var inner := DuplicateJsonValue(decoder);
        if inner { return true; }
        more := decoder.More();
      }
      var closing := decoder.Token();
      duplicate := closing != Next(EndArray);
    case EndObject => return true;
    case EndArray => return true;
    case Text(_) => return false;
    case Atom(_) => return false;
  }

  /** The whole check: false exactly when the text is the token form of one tree in which every object at every depth
      has distinct keys, with nothing after it. */
  method HasDuplicateKeyOrTrailingContent(tokens: seq<Token>, ending: Ending) returns (refused: bool)
    ensures !refused <==> ending.Eof? && exists j :: Distinct(j) && tokens == Tokens(j)
  {
    AcceptsExactlyTrees(tokens);
    var decoder := new Decoder(tokens, ending);
    var duplicate := DuplicateJsonValue(decoder);
    if duplicate { return true; }
    var last := decoder.Token();
    refused := last != AtEof;
  }
}
