/** Routing hashes of a request body: object members are hashed in sorted key order. */
module PrefixHash {
  import opened Results
  import opened Wire
  import opened Json
  import opened Text
  import opened TextOrder
  import Utf8

  type Hash = h: nat | h < U64_LIMIT

  // The exclusive or of the low bits, bit by bit.
  function Xor(a: nat, b: nat, bits: nat): (r: nat)
    ensures r < Pow2(bits)
  {
    if bits == 0 then 0 else 2 * Xor(a / 2, b / 2, bits - 1) + (a + b) % 2
  }

  function Pow2(n: nat): (p: nat)
    ensures p > 0
  {
    if n == 0 then 1 else 2 * Pow2(n - 1)
  }

  const FNV_OFFSET: Hash := 0xcbf29ce484222325
  const FNV_PRIME: nat := 0x100000001b3

  // A byte changes the low eight bits only.
  function WithByte(acc: Hash, b: Byte): Hash {
    assert Pow2(8) == 256 && acc - acc % 256 <= U64_LIMIT - 256;
    acc - acc % 256 + Xor(acc % 256, b, 8)
  }

  function HashByte(acc: Hash, b: Byte): Hash {
    WithByte(acc, b) * FNV_PRIME % U64_LIMIT
  }

  function HashBytesFrom(acc: Hash, bytes: Bytes): Hash
    decreases |bytes|
  {
    if bytes == [] then acc else HashBytesFrom(HashByte(acc, bytes[0]), bytes[1..])
  }

  function HashText(text: string): Hash {
    HashBytesFrom(FNV_OFFSET, Utf8.Encode(text))
  }

  // Wrapping arithmetic on 64 bits.
  function Combine(a: Hash, b: Hash): Hash {
    (a * 31 + b) % U64_LIMIT
  }

  /* ----- hashing values ----- */

  // The hash as a function of the value: members in ascending key order.
  ghost function HashValue(acc: Hash, value: Json): Hash
    decreases value, 1, 0
  {
    match value
    case Null => Combine(acc, HashText("null"))
    case Bool(b) => Combine(Combine(acc, HashText("bool")), HashText(if b then "true" else "false"))
    case Number(text) => Combine(Combine(acc, HashText("number")), HashText(text))
    case String(s) => Combine(Combine(acc, HashText("string")), HashText(s))
    case Array(items) => HashItems(Combine(Combine(acc, HashText("array")), LengthWord(|items|)), value, 0)
    case Object(fields) => HashMembers(Combine(acc, HashText("object")), value, SortedKeys(fields.Keys))
  }

  // `items.len() as u64`
  function LengthWord(n: nat): Hash {
    n % U64_LIMIT
  }

  ghost function HashItems(acc: Hash, value: Json, i: nat): Hash
    requires value.Array? && i <= |value.items|
    decreases value, 0, |value.items| - i
  {
    if i == |value.items| then acc
    else HashItems(HashValue(acc, value.items[i]), value, i + 1)
  }

  ghost function HashMembers(acc: Hash, value: Json, keys: seq<string>): Hash
    requires value.Object? && Elements(keys) <= value.fields.Keys
    decreases value, 0, |keys|
  {
    if keys == [] then acc
    else
      assert keys[0] in Elements(keys);
      assert Elements(keys[1..]) <= Elements(keys);
      HashMembers(HashValue(Combine(acc, HashText(keys[0])), value.fields[keys[0]]), value, keys[1..])
  }

  // Some enumeration of the keys: the iteration order of the map is not specified.
  method CollectKeys(fields: Fields) returns (keys: seq<string>)
    ensures Elements(keys) == fields.Keys
  {
    keys := [];
    var left := fields.Keys;
    while left != {}
      invariant Elements(keys) + left == fields.Keys
      decreases |left|
    {
      var k :| k in left;
      keys, left := keys + [k], left - {k};
    }
  }

  // Whatever order the keys come in, the hash is the same.
  method HashJsonValue(start: Hash, value: Json) returns (acc: Hash)
    ensures acc == HashValue(start, value)
    decreases value
  {
    hide Combine;
    hide HashText;
    hide SortedKeys;
    hide LengthWord;
    acc := start;
    match value {
      case Null => acc := Combine(acc, HashText("null"));
      case Bool(b) =>
        acc := Combine(acc, HashText("bool"));
        acc := Combine(acc, HashText(if b then "true" else "false"));
      case Number(text) =>
        acc := Combine(acc, HashText("number"));
        acc := Combine(acc, HashText(text));
      case String(s) =>
        acc := Combine(acc, HashText("string"));
        acc := Combine(acc, HashText(s));
      case Array(items) =>
        acc := Combine(acc, HashText("array"));
        acc := Combine(acc, LengthWord(|items|));
        for i := 0 to |items|
          invariant HashItems(acc, value, i) == HashValue(start, value)
        {
          acc := HashJsonValue(acc, items[i]);
        }
      case Object(fields) =>
        acc := Combine(acc, HashText("object"));
        var keys := CollectKeys(fields);
        SortSorts(keys);
        keys := Sort(keys);
        AscendingIsUnique(keys, SortedKeys(fields.Keys));
        for i := 0 to |keys|
          invariant Elements(keys[i..]) <= fields.Keys
          invariant HashMembers(acc, value, keys[i..]) == HashValue(start, value)
        {
          assert keys[i] in Elements(keys[i..]);
          assert keys[i..][0] == keys[i] && keys[i..][1..] == keys[i + 1..];
          assert Elements(keys[i + 1..]) <= Elements(keys[i..]);
          acc := Combine(acc, HashText(keys[i]));
          acc := HashJsonValue(acc, fields[keys[i]]);
        }
    }
  }

  /* ----- JSON texts: the same value up to the order of object members ----- */

  // A parsed text, members in the order written.
  datatype Doc =
    | Scalar(value: Json)
    | List(items: seq<Doc>)
    | Members(members: seq<Member>)
  datatype Member = Member(key: string, doc: Doc)

  function Value(doc: Doc): Json
    decreases doc, 0
  {
    match doc
    case Scalar(value) => value
    case List(items) => Array(seq(|items|, i requires 0 <= i < |items| => Value(items[i])))
    case Members(members) => Object(ValueMap(doc, members))
  }

  // A later member of the same name wins.
  function ValueMap(doc: Doc, members: seq<Member>): Fields
    requires forall m :: m in members ==> m.doc < doc
    decreases doc, 0, |members|
  {
    if members == [] then map[]
    else
      var last := members[|members| - 1];
      ValueMap(doc, members[..|members| - 1])[last.key := Value(last.doc)]
  }

  function Names(members: seq<Member>): set<string> {
    set m | m in members :: m.key
  }

  predicate DistinctKeys(members: seq<Member>) {
    forall i, j :: 0 <= i < j < |members| ==> members[i].key != members[j].key
  }

  function Find(members: seq<Member>, key: string): (i: nat)
    requires key in Names(members)
    ensures i < |members| && members[i].key == key
  {
    if members[0].key == key then 0 else 1 + Find(members[1..], key)
  }

  // `b` is `a` with the members of every object, at every depth, in some other order.
  predicate Reordered(a: Doc, b: Doc)
    decreases a
  {
    match a
    case Scalar(v) => b == a
    case List(items) =>
      b.List? && |b.items| == |items| && forall i :: 0 <= i < |items| ==> Reordered(items[i], b.items[i])
    case Members(members) =>
      && b.Members? && DistinctKeys(members) && DistinctKeys(b.members)
      && Names(members) == Names(b.members)
      && forall i :: 0 <= i < |members| ==>
           assert members[i] in members;
           Reordered(members[i].doc, b.members[Find(b.members, members[i].key)].doc)
  }

  lemma {:induction false} ValueMapOf(doc: Doc, members: seq<Member>)
    requires forall m :: m in members ==> m.doc < doc
    requires DistinctKeys(members)
    ensures ValueMap(doc, members).Keys == Names(members)
    ensures forall i :: 0 <= i < |members| ==> HasValue(ValueMap(doc, members), members[i].key, members[i].doc)
    decreases |members|
  {
    hide Value;
    hide HasValue;
    if members != [] {
      var init, last := members[..|members| - 1], members[|members| - 1];
      ValueMapOf(doc, init);
      NamesGrow(init, last);
      assert members == init + [last];
      OneValueMore(ValueMap(doc, init), init, last);
    }
  }

  lemma OneValueMore(fields: Fields, init: seq<Member>, last: Member)
    requires DistinctKeys(init + [last])
    requires forall i :: 0 <= i < |init| ==> HasValue(fields, init[i].key, init[i].doc)
    ensures var members := init + [last];
            forall i :: 0 <= i < |members| ==>
              HasValue(fields[last.key := Value(last.doc)], members[i].key, members[i].doc)
  {
    hide Value;
    var members := init + [last];
    forall i | 0 <= i < |members|
      ensures HasValue(fields[last.key := Value(last.doc)], members[i].key, members[i].doc)
    {
      if i < |init| {
        assert HasValue(fields, init[i].key, init[i].doc);
        assert members[i].key != members[|init|].key;
      }
    }
  }

  lemma NamesGrow(init: seq<Member>, last: Member)
    ensures Names(init + [last]) == Names(init) + {last.key}
  {
    assert forall m :: m in init + [last] <==> m in init || m == last;
  }

  predicate HasValue(fields: Fields, key: string, doc: Doc) {
    key in fields && fields[key] == Value(doc)
  }

  lemma {:induction false} ReorderedMeansEqual(a: Doc, b: Doc)
    requires Reordered(a, b)
    ensures Value(a) == Value(b)
    decreases a
  {
    hide ValueMap;
    hide HasValue;
    hide Names;
    hide DistinctKeys;
    match a {
      case Scalar(_) =>
      case List(items) =>
        forall i | 0 <= i < |items| ensures Value(items[i]) == Value(b.items[i]) {
          ReorderedMeansEqual(items[i], b.items[i]);
        }
      case Members(members) =>
        ValueMapOf(a, members);
        ValueMapOf(b, b.members);
        forall i | 0 <= i < |members|
          ensures Value(members[i].doc) == Value(b.members[FindIn(b.members, members, i)].doc)
        {
          assert members[i] in members;
          ReorderedMeansEqual(members[i].doc, b.members[FindIn(b.members, members, i)].doc);
        }
        SameMap(ValueMap(a, members), ValueMap(b, b.members), members, b.members);
    }
  }

  function FindIn(others: seq<Member>, members: seq<Member>, i: nat): (j: nat)
    requires i < |members| && Names(members) == Names(others)
    ensures j < |others| && members[i].key in Names(others) && j == Find(others, members[i].key)
  {
    assert members[i] in members;
    Find(others, members[i].key)
  }

  lemma SameMap(m: Fields, n: Fields, members: seq<Member>, others: seq<Member>)
    requires Names(members) == Names(others) && m.Keys == Names(members) && n.Keys == Names(others)
    requires forall i :: 0 <= i < |members| ==> HasValue(m, members[i].key, members[i].doc)
    requires forall j :: 0 <= j < |others| ==> HasValue(n, others[j].key, others[j].doc)
    requires forall i :: 0 <= i < |members| ==> Value(members[i].doc) == Value(others[FindIn(others, members, i)].doc)
    ensures m == n
  {
    hide Value;
    forall k | k in m ensures m[k] == n[k] {
      var i := Find(members, k);
      var j := FindIn(others, members, i);
      assert HasValue(m, members[i].key, members[i].doc) && HasValue(n, others[j].key, others[j].doc);
    }
  }

  // Texts equal up to the order of object members hash equally from any accumulator.
  lemma HashIgnoresMemberOrder(acc: Hash, a: Doc, b: Doc)
    requires Reordered(a, b)
    ensures HashValue(acc, Value(a)) == HashValue(acc, Value(b))
  {
    ReorderedMeansEqual(a, b);
  }

  /* ----- the scaffold of a request ----- */

  function MessageText(msg: Json): Option<string> {
    if msg.GetStr("content").Some? then msg.GetStr("content")
    else if msg.Get("content").Some? && msg.Get("content").value.Array? then
      var text := BlockTexts(msg.Get("content").value.items);
      if text != "" then Some(text) else None
    else None
  }

  function BlockTexts(blocks: seq<Json>): string {
    if blocks == [] then ""
    else
      match blocks[0].GetStr("text")
      case None => BlockTexts(blocks[1..])
      case Some(text) => text + "\n" + BlockTexts(blocks[1..])
  }

  function RoleOf(msg: Json): string {
    msg.GetStr("role").GetOr("")
  }

  const SCAFFOLD_KEYS: seq<string> := ["tools", "functions", "response_format", "tool_choice", "parallel_tool_calls"]

  datatype Scaffold = Scaffold(hash: Hash, found: bool)

  function TaggedText(acc: Hash, tag: string, text: string): Hash {
    Combine(Combine(acc, HashText(tag)), HashText(text))
  }

  ghost function AddMember(s: Scaffold, body: Json, key: string): Scaffold {
    match body.Get(key)
    case None => s
    case Some(value) => Scaffold(HashValue(Combine(s.hash, HashText(key)), value), true)
  }

  ghost function AddMembers(s: Scaffold, body: Json, keys: seq<string>): Scaffold
    decreases |keys|
  {
    if keys == [] then s else AddMembers(AddMember(s, body, keys[0]), body, keys[1..])
  }

  function AddMessages(s: Scaffold, messages: seq<Json>): Scaffold
    decreases |messages|
  {
    if messages == [] then s
    else
      var role := RoleOf(messages[0]);
      if role == "user" then s
      else if (role == "system" || role == "developer") && MessageText(messages[0]).Some? then
        AddMessages(Scaffold(TaggedText(s.hash, role, MessageText(messages[0]).value), true), messages[1..])
      else AddMessages(s, messages[1..])
  }

  function Messages(body: Json): seq<Json> {
    if body.Get("messages").Some? && body.Get("messages").value.Array? then body.Get("messages").value.items else []
  }

  ghost function ScaffoldHash(body: Json): Option<Hash> {
    var s := AddMessages(AddMembers(Scaffold(0, false), body, SCAFFOLD_KEYS), Messages(body));
    if s.found then Some(s.hash) else None
  }

  lemma OneMember(s: Scaffold, body: Json, i: nat)
    requires i < |SCAFFOLD_KEYS|
    ensures AddMembers(s, body, SCAFFOLD_KEYS[i..])
         == AddMembers(AddMember(s, body, SCAFFOLD_KEYS[i]), body, SCAFFOLD_KEYS[i + 1..])
  {
    hide HashValue;
    hide HashText;
    assert SCAFFOLD_KEYS[i..][0] == SCAFFOLD_KEYS[i] && SCAFFOLD_KEYS[i..][1..] == SCAFFOLD_KEYS[i + 1..];
  }

  lemma NoMember(s: Scaffold, body: Json)
    ensures AddMembers(s, body, SCAFFOLD_KEYS[|SCAFFOLD_KEYS|..]) == s
    ensures SCAFFOLD_KEYS[0..] == SCAFFOLD_KEYS
  {}

  lemma OneMessage(s: Scaffold, messages: seq<Json>, i: nat)
    requires i < |messages|
    ensures AddMessages(s, messages[i..])
         == if RoleOf(messages[i]) == "user" then s
            else
              var text := MessageText(messages[i]);
              AddMessages(if RoleOf(messages[i]) in ["system", "developer"] && text.Some?
                          then Scaffold(TaggedText(s.hash, RoleOf(messages[i]), text.value), true) else s,
                          messages[i + 1..])
  {
    hide MessageText;
    hide TaggedText;
    hide RoleOf;
    assert messages[i..][0] == messages[i] && messages[i..][1..] == messages[i + 1..];
  }

  lemma NoMessage(s: Scaffold, messages: seq<Json>)
    ensures AddMessages(s, messages[|messages|..]) == s && messages[0..] == messages
  {}

  method ScaffoldPrefixHashFromBody(body: Json) returns (r: Option<Hash>)
    ensures r == ScaffoldHash(body)
  {
    hide HashText;
    hide Combine;
    hide HashValue;
    hide MessageText;
    hide AddMembers;
    hide AddMessages;
    hide SCAFFOLD_KEYS;
    var hash: Hash := 0;
    var found := false;
    for i := 0 to |SCAFFOLD_KEYS|
      invariant AddMembers(Scaffold(hash, found), body, SCAFFOLD_KEYS[i..])
                == AddMembers(Scaffold(0, false), body, SCAFFOLD_KEYS)
    {
      var key := SCAFFOLD_KEYS[i];
      OneMember(Scaffold(hash, found), body, i);
      var value := body.Get(key);
      if value.Some? {
        hash := HashJsonValue(Combine(hash, HashText(key)), value.value);
        found := true;
      }
    }
    ghost var start := Scaffold(hash, found);
    NoMember(start, body);
    var messages := Messages(body);
    var i := 0;
    while i < |messages|
      invariant i <= |messages|
      invariant AddMessages(Scaffold(hash, found), messages[i..]) == AddMessages(start, messages)
    {
      OneMessage(Scaffold(hash, found), messages, i);
      var role := RoleOf(messages[i]);
      if role == "user" {
        break;
      }
      if role == "system" || role == "developer" {
        var text := MessageText(messages[i]);
        if text.Some? {
          hash := TaggedText(hash, role, text.value);
          found := true;
        }
      }
      i := i + 1;
    }
    NoMessage(Scaffold(hash, found), messages);
    assert AddMessages(start, messages) == Scaffold(hash, found);
    r := if found then Some(hash) else None;
  }

  // The messages before the first one of the user.
  function Preamble(messages: seq<Json>): seq<Json> {
    if messages == [] || RoleOf(messages[0]) == "user" then [] else [messages[0]] + Preamble(messages[1..])
  }

  lemma {:induction false} OnlyThePreambleCounts(s: Scaffold, messages: seq<Json>)
    ensures AddMessages(s, messages) == AddMessages(s, Preamble(messages))
    decreases |messages|
  {
    hide MessageText;
    hide RoleOf;
    hide TaggedText;
    if messages != [] && RoleOf(messages[0]) != "user" {
      assert Preamble(messages)[1..] == Preamble(messages[1..]);
      var role := RoleOf(messages[0]);
      if (role == "system" || role == "developer") && MessageText(messages[0]).Some? {
        OnlyThePreambleCounts(Scaffold(TaggedText(s.hash, role, MessageText(messages[0]).value), true), messages[1..]);
      } else {
        OnlyThePreambleCounts(s, messages[1..]);
      }
    }
  }

  // The scaffold hash is unchanged by anything from the first user message onward, and by
  // every body member it does not name.
  lemma ScaffoldIgnoresTheConversation(a: Json, b: Json)
    requires forall key :: key in SCAFFOLD_KEYS ==> a.Get(key) == b.Get(key)
    requires Preamble(Messages(a)) == Preamble(Messages(b))
    ensures ScaffoldHash(a) == ScaffoldHash(b)
  {
    hide MessageText;
    hide RoleOf;
    hide HashValue;
    SameMembers(Scaffold(0, false), a, b, SCAFFOLD_KEYS);
    var s := AddMembers(Scaffold(0, false), a, SCAFFOLD_KEYS);
    OnlyThePreambleCounts(s, Messages(a));
    OnlyThePreambleCounts(s, Messages(b));
  }

  lemma {:induction false} SameMembers(s: Scaffold, a: Json, b: Json, keys: seq<string>)
    requires forall key :: key in keys ==> a.Get(key) == b.Get(key)
    ensures AddMembers(s, a, keys) == AddMembers(s, b, keys)
    decreases |keys|
  {
    hide HashValue;
    hide HashText;
    hide Combine;
    if keys != [] {
      assert keys[0] in keys && forall k :: k in keys[1..] ==> k in keys;
      match a.Get(keys[0]) {
        case None => SameMembers(s, a, b, keys[1..]);
        case Some(value) =>
          SameMembers(Scaffold(HashValue(Combine(s.hash, HashText(keys[0])), value), true), a, b, keys[1..]);
      }
    }
  }

  /* ----- routing keys ----- */

  function FirstUserHash(messages: seq<Json>): Option<Option<Hash>> {
    if messages == [] then None
    else if messages[0].GetStr("role") == Some("user") then
      match MessageText(messages[0])
      case None => Some(None)
      case Some(text) => Some(Some(TaggedText(0, "user", text)))
    else FirstUserHash(messages[1..])
  }

  // The first user message decides, even when it has no text; without one, the prompt does.
  function FirstUserHashFromBody(body: Json): Option<Hash> {
    match FirstUserHash(Messages(body))
    case Some(hash) => hash
    case None =>
      match body.GetStr("prompt")
      case None => None
      case Some(prompt) => Some(TaggedText(0, "prompt", prompt))
  }

  datatype RoutingKeys = RoutingKeys(session: Option<Hash>, prefix: Option<Hash>, sticky: Option<Hash>)

  function SessionHash(body: Json): Option<Hash> {
    match body.GetStr("user").Or(body.GetStr("session_id"))
    case None => None
    case Some(hint) => Some(HashText(hint))
  }

  function StickyHash(session: Option<Hash>, prefix: Option<Hash>, user: Option<Hash>): Option<Hash> {
    if session.Some? then session
    else if prefix.None? && user.None? then None
    else
      var h := if prefix.Some? then Combine(0, prefix.value) else 0;
      Some(if user.Some? then Combine(h, user.value) else h)
  }

  ghost function KeysOf(body: Option<Json>): RoutingKeys {
    match body
    case None => RoutingKeys(None, None, None)
    case Some(b) =>
      RoutingKeys(SessionHash(b), ScaffoldHash(b),
                  StickyHash(SessionHash(b), ScaffoldHash(b), FirstUserHashFromBody(b)))
  }

  method RoutingKeysOf(body: Option<Json>) returns (keys: RoutingKeys)
    ensures keys == KeysOf(body)
  {
    if body.None? {
      return RoutingKeys(None, None, None);
    }
    var session := SessionHash(body.value);
    var prefix := ScaffoldPrefixHashFromBody(body.value);
    keys := RoutingKeys(session, prefix, StickyHash(session, prefix, FirstUserHashFromBody(body.value)));
  }

  // Two texts of one request, members in any order, are routed by the same keys.
  lemma RoutingIgnoresMemberOrder(a: Doc, b: Doc)
    requires Reordered(a, b)
    ensures KeysOf(Some(Value(a))) == KeysOf(Some(Value(b)))
  {
    ReorderedMeansEqual(a, b);
  }
}
