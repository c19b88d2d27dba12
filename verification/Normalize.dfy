/**
 OpenAI compatibility: token-limit aliases and the translation of `/v1/responses` bodies
 into `/v1/chat/completions` bodies.
 */
module Normalize {
  import opened Results
  import opened Json
  import opened Text

  datatype Fault = MissingImage | MissingAudio | MissingFile | UnknownBlock(kind: string)
                 | BadContent | BadMessage | BadInput

  datatype Adapter = NoAdapter | ResponsesJson | ResponsesStream

  /* ----- content blocks ----- */

  function UrlContainer(url: string): Fields {
    map["url" := String(url)]
  }

  function ObjectOrUrlContainer(value: Option<Json>, fallbackUrl: Option<string>): Option<Fields> {
    if value.Some? && value.value.Object? then Some(value.value.fields)
    else if value.Some? && value.value.String? then Some(UrlContainer(value.value.s))
    else if fallbackUrl.Some? then Some(UrlContainer(fallbackUrl.value))
    else None
  }

  // Copies the members named in `keys` that the container does not have yet.
  function FillIn(container: Fields, item: Fields, keys: seq<string>): Fields
    decreases |keys|
  {
    if keys == [] then container
    else
      var k := keys[0];
      FillIn(if k in item && k !in container then container[k := item[k]] else container, item, keys[1..])
  }

  const AUDIO_KEYS: seq<string> := ["data", "format", "mime_type", "mesh_token", "blob_token", "token"]
  const FILE_KEYS: seq<string> := ["mime_type", "file_name", "filename", "mesh_token", "blob_token", "token"]

  function TextBlock(text: string): Json {
    Object(map["type" := String("text"), "text" := String(text)])
  }

  function Block(kind: string, container: Fields): Json {
    Object(map["type" := String(kind), kind := Object(container)])
  }

  function ContentItem(item: Json): Result<Json, Fault> {
    if !item.Object? then Ok(TextBlock(item.AsStr().GetOr("")))
    else
      var kind := item.GetStr("type").GetOr("text");
      if kind == "input_text" || kind == "text" then Ok(TextBlock(item.GetStr("text").GetOr("")))
      else if kind == "input_image" || kind == "image_url" || kind == "image" then
        match ObjectOrUrlContainer(item.Get("image_url").Or(item.Get("image")), item.GetStr("url"))
        case None => Err(MissingImage)
        case Some(container) => Ok(Block("image_url", container))
      else if kind == "input_audio" || kind == "audio" || kind == "audio_url" then
        var start := ObjectOrUrlContainer(item.Get("input_audio").Or(item.Get("audio_url")), item.GetStr("url"));
        var container := FillIn(start.GetOr(map[]), item.fields, AUDIO_KEYS);
        if container == map[] then Err(MissingAudio) else Ok(Block("input_audio", container))
      else if kind == "input_file" || kind == "file" then
        match ObjectOrUrlContainer(item.Get("input_file").Or(item.Get("file")), item.GetStr("url"))
        case None => Err(MissingFile)
        case Some(container) => Ok(Block("input_file", FillIn(container, item.fields, FILE_KEYS)))
      else Err(UnknownBlock(kind))
  }

  function ContentItems(items: seq<Json>): Result<seq<Json>, Fault> {
    if items == [] then Ok([])
    else
      match ContentItem(items[0])
      case Err(e) => Err(e)
      case Ok(first) =>
        match ContentItems(items[1..])
        case Err(e) => Err(e)
        case Ok(rest) => Ok([first] + rest)
  }

  function CollapseIfTextOnly(blocks: seq<Json>): Json {
    if |blocks| == 1 && blocks[0].GetStr("text").Some? then String(blocks[0].GetStr("text").value)
    else Array(blocks)
  }

  function MessageContent(content: Json): Result<Json, Fault> {
    match content
    case String(_) => Ok(content)
    case Array(items) =>
      (match ContentItems(items)
       case Err(e) => Err(e)
       case Ok(blocks) => Ok(CollapseIfTextOnly(blocks)))
    case Object(_) =>
      (match ContentItem(content)
       case Err(e) => Err(e)
       case Ok(block) => Ok(CollapseIfTextOnly([block])))
    case _ => Err(BadContent)
  }

  /* ----- messages ----- */

  function MapRole(role: string): string {
    if role == "developer" then "system" else role
  }

  function Message(role: string, content: Json): Json {
    Object(map["role" := String(role), "content" := content])
  }

  function InputMessage(message: Json): Result<Json, Fault> {
    if !message.Object? then Err(BadMessage)
    else
      var role := MapRole(message.GetStr("role").GetOr("user"));
      match message.Get("content")
      case None => Ok(Message(role, String("")))
      case Some(content) =>
        match MessageContent(content)
        case Err(e) => Err(e)
        case Ok(translated) => Ok(Message(role, translated))
  }

  function InputMessages(items: seq<Json>): Result<seq<Json>, Fault> {
    if items == [] then Ok([])
    else
      match InputMessage(items[0])
      case Err(e) => Err(e)
      case Ok(first) =>
        match InputMessages(items[1..])
        case Err(e) => Err(e)
        case Ok(rest) => Ok([first] + rest)
  }

  predicate LooksLikeMessage(item: Json) {
    item.Object? && ("role" in item.fields || "content" in item.fields)
  }

  function AsUserMessage(input: Json): Result<seq<Json>, Fault> {
    match MessageContent(input)
    case Err(e) => Err(e)
    case Ok(content) => Ok([Message("user", content)])
  }

  function ToMessages(input: Json): Result<seq<Json>, Fault> {
    match input
    case String(text) => Ok([Message("user", String(text))])
    case Array(items) =>
      if forall i :: 0 <= i < |items| ==> LooksLikeMessage(items[i]) then InputMessages(items) else AsUserMessage(input)
    case Object(_) =>
      if LooksLikeMessage(input) then InputMessages([input]) else AsUserMessage(input)
    case _ => Err(BadInput)
  }

  /* ----- whole bodies ----- */

  const DROPPED: seq<string> :=
    ["include", "output", "output_text", "parallel_tool_calls", "previous_response_id",
     "reasoning", "store", "text", "truncation"]

  // The system message the instructions become; none when blank or not a text.
  function Instructions(fields: Fields): seq<Json> {
    if "instructions" in fields && fields["instructions"].String? && Trim(fields["instructions"].s) != ""
    then [Message("system", String(Trim(fields["instructions"].s)))]
    else []
  }

  // The member the conversation is taken from.
  function Source(fields: Fields): Option<string> {
    if "input" in fields then Some("input") else if "messages" in fields then Some("messages") else None
  }

  function Conversation(fields: Fields): Result<seq<Json>, Fault> {
    match Source(fields)
    case None => Ok(Instructions(fields))
    case Some(key) =>
      match ToMessages(fields[key])
      case Err(e) => Err(e)
      case Ok(messages) => Ok(Instructions(fields) + messages)
  }

  function Consumed(fields: Fields): set<string> {
    {"instructions"} + if Source(fields).Some? then {Source(fields).value} else {}
  }

  function DroppedKeys(): set<string> {
    set key | key in DROPPED
  }

  // The conversation members are none of the dropped ones.
  lemma DroppedNames()
    ensures "messages" !in DROPPED && "input" !in DROPPED && "instructions" !in DROPPED
  {}

  function Translated(fields: Fields): Result<Fields, Fault> {
    match Conversation(fields)
    case Err(e) => Err(e)
    case Ok(messages) =>
      var rest := fields - Consumed(fields);
      Ok((if messages == [] then rest else rest["messages" := Array(messages)]) - DroppedKeys())
  }

  predicate TranslationChanges(fields: Fields) {
    || "instructions" in fields || Source(fields).Some?
    || exists key :: key in DROPPED && key in fields
  }

  predicate HasAlias(fields: Fields) {
    "max_completion_tokens" in fields || "max_output_tokens" in fields
  }

  // `max_tokens` keeps its value if present, else takes the first alias's; aliases go.
  function Aliased(fields: Fields): Fields {
    var rest := fields - {"max_completion_tokens", "max_output_tokens"};
    if "max_tokens" in fields then rest
    else if "max_completion_tokens" in fields then rest["max_tokens" := fields["max_completion_tokens"]]
    else if "max_output_tokens" in fields then rest["max_tokens" := fields["max_output_tokens"]]
    else rest
  }

  // One alias removed, its value taken where `max_tokens` has none.
  function Taken(fields: Fields, alias: string): Fields {
    var rest := fields - {alias};
    if alias in fields && "max_tokens" !in rest then rest["max_tokens" := fields[alias]] else rest
  }

  lemma OneAliasAfterTheOther(fields: Fields)
    ensures Taken(Taken(fields, "max_completion_tokens"), "max_output_tokens") == Aliased(fields)
    ensures "max_output_tokens" in Taken(fields, "max_completion_tokens") <==> "max_output_tokens" in fields
  {
    var a, b, c := "max_tokens", "max_completion_tokens", "max_output_tokens";
    assert |a| < |c| < |b|;
  }

  function PathOnly(path: string): string {
    BeforeFirst(path, '?')
  }

  function RewritePath(path: string, newPath: string): string {
    var i := IndexOf(path, '?');
    if i == |path| then newPath else newPath + path[i..]
  }

  datatype Normalized = Normalized(body: Json, changed: bool, path: string, adapter: Adapter)

  function AdapterFor(fields: Fields): Adapter {
    if "stream" in fields && fields["stream"] == Bool(true) then ResponsesStream else ResponsesJson
  }

  function Normalize(path: string, body: Json): Result<Normalized, Fault> {
    if !body.Object? then Ok(Normalized(body, false, path, NoAdapter))
    else
      var aliased := Aliased(body.fields);
      if PathOnly(path) != "/v1/responses" then
        Ok(Normalized(Object(aliased), HasAlias(body.fields), path, NoAdapter))
      else
        match Translated(aliased)
        case Err(e) => Err(e)
        case Ok(fields) =>
          Ok(Normalized(Object(fields), HasAlias(body.fields) || TranslationChanges(aliased),
                        RewritePath(path, "/v1/chat/completions"), AdapterFor(aliased)))
  }

  /* ----- the same, on an object changed in place ----- */

  class JsonObject {
    var fields: Fields

    constructor (fields: Fields)
      ensures this.fields == fields
    {
      this.fields := fields;
    }

    method Remove(key: string) returns (value: Option<Json>)
      modifies this
      ensures value == if key in old(fields) then Some(old(fields)[key]) else None
      ensures fields == old(fields) - {key}
    {
      value := if key in fields then Some(fields[key]) else None;
      fields := fields - {key};
    }

    // `entry(key).or_insert(value)`
    method OrInsert(key: string, value: Json)
      modifies this
      ensures fields == if key in old(fields) then old(fields) else old(fields)[key := value]
    {
      if key !in fields {
        fields := fields[key := value];
      }
    }

    method AliasMaxTokens() returns (changed: bool)
      modifies this
      ensures fields == Aliased(old(fields))
      ensures changed == HasAlias(old(fields))
    {
      changed := false;
      var aliases := ["max_completion_tokens", "max_output_tokens"];
      ghost var was := fields;
      OneAliasAfterTheOther(was);
      for i := 0 to 2
        invariant fields == if i == 0 then was
                            else if i == 1 then Taken(was, aliases[0])
                            else Taken(Taken(was, aliases[0]), aliases[1])
        invariant changed == ((i > 0 && aliases[0] in was) || (i > 1 && aliases[1] in was))
      {
        var value := Remove(aliases[i]);
        if value.Some? {
          changed := true;
          OrInsert("max_tokens", value.value);
        }
      }
    }

    method DropResponsesKeys() returns (changed: bool)
      modifies this
      ensures fields == old(fields) - DroppedKeys()
      ensures changed == exists key :: key in DROPPED && key in old(fields)
    {
      changed := false;
      for i := 0 to |DROPPED|
        invariant fields == old(fields) - (set key | key in DROPPED[..i])
        invariant changed == exists key :: key in DROPPED[..i] && key in old(fields)
      {
        var removed := Remove(DROPPED[i]);
        assert DROPPED[..i + 1] == DROPPED[..i] + [DROPPED[i]];
        if removed.Some? {
          assert DROPPED[i] in DROPPED[..i + 1];
          changed := true;
        }
      }
      assert DROPPED[..|DROPPED|] == DROPPED;
    }

    // An error leaves the object half translated; the request is refused then.
    method TranslateOpenAiResponsesInput() returns (r: Result<bool, Fault>)
      modifies this
      ensures match Translated(old(fields))
              case Err(e) => r == Err(e)
              case Ok(translated) => r == Ok(TranslationChanges(old(fields))) && fields == translated
    {
      hide ToMessages;
      hide Trim;
      DroppedNames();
      var changed := false;
      var messages: seq<Json> := [];
      ghost var before := fields;

      var instructions := Remove("instructions");
      if instructions.Some? {
        messages := Instructions(map["instructions" := instructions.value]);
        changed := true;
      }

      var input := Remove("input");
      if input.None? {
        input := Remove("messages");
      }
      if input.Some? {
        var converted := ToMessages(input.value);
        if converted.Err? {
          return Err(converted.error);
        }
        messages := messages + converted.value;
        changed := true;
      }
      assert Conversation(before) == Ok(messages);
      ghost var consumed := Consumed(before);
      assert fields == before - consumed;

      if messages != [] {
        fields := fields["messages" := Array(messages)];
      }
      ghost var kept := fields;
      var dropped := DropResponsesKeys();
      assert forall key :: key in DROPPED ==> (key in kept <==> key in before);
      r := Ok(changed || dropped);
    }
  }

  method NormalizeInPlace(path: string, body: Json) returns (r: Result<Normalized, Fault>)
    ensures r == Normalize(path, body)
  {
    hide Translated;
    hide TranslationChanges;
    hide PathOnly;
    hide RewritePath;
    hide Aliased;
    if !body.Object? {
      return Ok(Normalized(body, false, path, NoAdapter));
    }
    var fields := new JsonObject(body.fields);
    var changed := fields.AliasMaxTokens();
    if PathOnly(path) != "/v1/responses" {
      return Ok(Normalized(Object(fields.fields), changed, path, NoAdapter));
    }
    var adapter := AdapterFor(fields.fields);
    var translated := fields.TranslateOpenAiResponsesInput();
    if translated.Err? {
      return Err(translated.error);
    }
    r := Ok(Normalized(Object(fields.fields), changed || translated.value,
                       RewritePath(path, "/v1/chat/completions"), adapter));
  }

  /* ----- a normalised body is in normal form ----- */

  lemma RewrittenPathOnly(path: string, newPath: string)
    requires '?' !in newPath
    ensures PathOnly(RewritePath(path, newPath)) == newPath
  {
    hide IndexOf;
    var i := IndexOf(path, '?');
    if i == |path| {
      assert newPath[..|newPath|] == newPath;
      IndexOfIs(newPath, '?', |newPath|);
    } else {
      CutAt(newPath, '?', path[i + 1..]);
      assert newPath + path[i..] == newPath + ['?'] + path[i + 1..];
    }
  }

  lemma AliasedHasNoAlias(fields: Fields)
    ensures !HasAlias(Aliased(fields))
    ensures !HasAlias(fields) ==> Aliased(fields) == fields
  {
    if !HasAlias(fields) {
      assert fields - {"max_completion_tokens", "max_output_tokens"} == fields;
    }
  }

  lemma TranslatedHasNoAlias(fields: Fields)
    requires !HasAlias(fields) && Translated(fields).Ok?
    ensures !HasAlias(Translated(fields).value)
    ensures !TranslationChanges(fields) ==> Translated(fields).value == fields
  {
    hide ToMessages;
    hide Trim;
    if !TranslationChanges(fields) {
      assert fields - DroppedKeys() == fields;
      assert fields - {"instructions"} == fields;
    }
  }

  // Normalising changes nothing the second time, and an unchanged answer is the input.
  lemma NormalizeIsIdempotent(path: string, body: Json)
    requires Normalize(path, body).Ok?
    ensures var n := Normalize(path, body).value;
            && Normalize(n.path, n.body) == Ok(Normalized(n.body, false, n.path, NoAdapter))
            && (!n.changed ==> n.body == body)
  {
    hide Translated;
    hide PathOnly;
    hide RewritePath;
    hide Aliased;
    if body.Object? {
      var aliased := Aliased(body.fields);
      AliasedHasNoAlias(body.fields);
      AliasedHasNoAlias(aliased);
      if PathOnly(path) == "/v1/responses" {
        RewrittenPathOnly(path, "/v1/chat/completions");
        TranslatedHasNoAlias(aliased);
        AliasedHasNoAlias(Translated(aliased).value);
      }
    }
  }

  /* ----- the shape of a translated conversation ----- */

  lemma FillInNothing(container: Fields, item: Fields, keys: seq<string>)
    requires forall k :: k in keys ==> k !in item
    ensures FillIn(container, item, keys) == container
    decreases |keys|
  {
    if keys != [] {
      assert keys[0] in keys && forall k :: k in keys[1..] ==> k in keys;
      FillInNothing(container, item, keys[1..]);
    }
  }

  // A text block: exactly a type and a text.
  predicate IsTextBlock(item: Json) {
    && item.Object? && item.fields.Keys == {"type", "text"}
    && item.fields["type"] == String("text") && item.fields["text"].String?
  }

  // A block of a kind: exactly a type and an object under the name of the kind.
  predicate IsBlock(item: Json, kind: string) {
    && item.Object? && item.fields.Keys == {"type", kind}
    && item.fields["type"] == String(kind) && item.fields[kind].Object?
  }

  predicate ChatBlock(item: Json) {
    || IsTextBlock(item) || IsBlock(item, "image_url") || IsBlock(item, "input_file")
    || (IsBlock(item, "input_audio") && item.fields["input_audio"].fields != map[])
  }

  // A text, or a list of blocks that is not one text block alone.
  predicate ChatContent(content: Json) {
    content.String?
    || (content.Array? && (forall b :: b in content.items ==> ChatBlock(b))
        && !(|content.items| == 1 && IsTextBlock(content.items[0])))
  }

  // A message: exactly a role, other than developer, and such a content.
  predicate ChatMessage(m: Json) {
    && m.Object? && m.fields.Keys == {"role", "content"}
    && m.fields["role"].String? && m.fields["role"].s != "developer"
    && ChatContent(m.fields["content"])
  }

  lemma TextBlockStays(item: Json)
    requires IsTextBlock(item)
    ensures ContentItem(item) == Ok(item)
  {
    assert item.fields == map["type" := String("text"), "text" := item.fields["text"]];
  }

  lemma BlockStays(item: Json, kind: string)
    requires IsBlock(item, kind) && kind in ["image_url", "input_audio", "input_file"]
    requires kind == "input_audio" ==> item.fields[kind].fields != map[]
    ensures ContentItem(item) == Ok(item) && item.GetStr("text") == None
  {
    hide FillIn;
    var container := item.fields[kind].fields;
    assert item.fields == map["type" := String(kind), kind := Object(container)];
    if kind == "input_audio" {
      assert forall k :: k in AUDIO_KEYS ==> k !in item.fields;
      FillInNothing(container, item.fields, AUDIO_KEYS);
    } else if kind == "input_file" {
      assert forall k :: k in FILE_KEYS ==> k !in item.fields;
      FillInNothing(container, item.fields, FILE_KEYS);
    }
  }

  lemma ChatBlockStays(item: Json)
    requires ChatBlock(item)
    ensures ContentItem(item) == Ok(item) && (item.GetStr("text").Some? ==> IsTextBlock(item))
  {
    hide ContentItem;
    hide IsTextBlock;
    hide IsBlock;
    if IsTextBlock(item) {
      TextBlockStays(item);
    } else if IsBlock(item, "image_url") {
      BlockStays(item, "image_url");
    } else if IsBlock(item, "input_file") {
      BlockStays(item, "input_file");
    } else {
      BlockStays(item, "input_audio");
    }
  }

  lemma ItemBecomesBlock(item: Json)
    requires ContentItem(item).Ok?
    ensures ChatBlock(ContentItem(item).value)
  {
    hide ChatBlock;
    hide FillIn;
    hide Block;
    hide TextBlock;
    hide ObjectOrUrlContainer;
    var r := ContentItem(item).value;
    if text :| r == TextBlock(text) {
      TextBlockIsOne(text);
    } else {
      var kind, container :| r == Block(kind, container)
                             && kind in ["image_url", "input_audio", "input_file"]
                             && (kind == "input_audio" ==> container != map[]);
      BlockIsOne(kind, container);
    }
  }

  lemma TextBlockIsOne(text: string)
    ensures ChatBlock(TextBlock(text))
  {}

  lemma BlockIsOne(kind: string, container: Fields)
    requires kind in ["image_url", "input_audio", "input_file"] && (kind == "input_audio" ==> container != map[])
    ensures ChatBlock(Block(kind, container))
  {
    var b := Block(kind, container);
    assert IsBlock(b, kind) && b.fields[kind] == Object(container);
    hide IsBlock;
    hide Block;
  }

  lemma {:induction false} ItemsBecomeBlocks(items: seq<Json>)
    requires ContentItems(items).Ok?
    ensures forall b :: b in ContentItems(items).value ==> ChatBlock(b)
  {
    hide ContentItem;
    hide ChatBlock;
    if items != [] {
      ItemBecomesBlock(items[0]);
      ItemsBecomeBlocks(items[1..]);
    }
  }

  lemma {:induction false} BlocksStay(blocks: seq<Json>)
    requires forall b :: b in blocks ==> ChatBlock(b)
    ensures ContentItems(blocks) == Ok(blocks)
  {
    hide ContentItem;
    hide ChatBlock;
    if blocks != [] {
      assert blocks[0] in blocks && forall b :: b in blocks[1..] ==> b in blocks;
      ChatBlockStays(blocks[0]);
      BlocksStay(blocks[1..]);
      assert [blocks[0]] + blocks[1..] == blocks;
    }
  }

  lemma BlocksCollapse(blocks: seq<Json>)
    requires forall b :: b in blocks ==> ChatBlock(b)
    ensures ChatContent(CollapseIfTextOnly(blocks))
  {
    hide ChatBlock;
    if |blocks| == 1 {
      ChatBlockStays(blocks[0]);
    }
  }

  lemma ContentBecomesChat(content: Json)
    requires MessageContent(content).Ok?
    ensures ChatContent(MessageContent(content).value)
  {
    hide ContentItem;
    hide ChatBlock;
    hide CollapseIfTextOnly;
    match content {
      case Array(items) =>
        ItemsBecomeBlocks(items);
        BlocksCollapse(ContentItems(items).value);
      case Object(_) =>
        ItemBecomesBlock(content);
        BlocksCollapse([ContentItem(content).value]);
      case String(_) =>
      case _ =>
    }
  }

  lemma ContentStays(content: Json)
    requires ChatContent(content)
    ensures MessageContent(content) == Ok(content)
  {
    hide ChatBlock;
    hide ContentItem;
    match content {
      case Array(items) =>
        BlocksStay(items);
        if |items| == 1 {
          ChatBlockStays(items[0]);
        }
      case _ =>
    }
  }

  lemma MessageIsChat(role: string, content: Json)
    requires role != "developer" && ChatContent(content)
    ensures ChatMessage(Message(role, content))
  {
    hide ChatContent;
  }

  lemma MessageBecomesChat(message: Json)
    requires InputMessage(message).Ok?
    ensures ChatMessage(InputMessage(message).value)
  {
    hide MessageContent;
    hide ChatMessage;
    hide Message;
    var role := MapRole(message.GetStr("role").GetOr("user"));
    match message.Get("content") {
      case None => MessageIsChat(role, String(""));
      case Some(content) =>
        ContentBecomesChat(content);
        hide ChatContent;
        MessageIsChat(role, MessageContent(content).value);
    }
  }

  lemma ChatMessageStays(m: Json)
    requires ChatMessage(m)
    ensures LooksLikeMessage(m) && InputMessage(m) == Ok(m)
  {
    hide MessageContent;
    var content := m.fields["content"];
    ContentStays(content);
    hide ChatContent;
    assert m.fields == map["role" := m.fields["role"], "content" := content];
    assert MapRole(m.fields["role"].s) == m.fields["role"].s;
  }

  // The shape of a message is exactly what the translation leaves alone.
  lemma ChatMessagesAreFixed(m: Json)
    ensures ChatMessage(m) <==> LooksLikeMessage(m) && InputMessage(m) == Ok(m)
  {
    hide InputMessage;
    hide ChatMessage;
    if ChatMessage(m) {
      ChatMessageStays(m);
    } else if InputMessage(m) == Ok(m) {
      MessageBecomesChat(m);
    }
  }

  predicate ChatMessages(messages: seq<Json>) {
    forall i :: 0 <= i < |messages| ==> ChatMessage(messages[i])
  }

  lemma {:induction false} MessagesBecomeChat(items: seq<Json>)
    requires InputMessages(items).Ok?
    ensures ChatMessages(InputMessages(items).value)
    ensures |InputMessages(items).value| == |items|
  {
    hide InputMessage;
    hide ChatMessage;
    if items != [] {
      MessageBecomesChat(items[0]);
      MessagesBecomeChat(items[1..]);
    }
  }

  lemma {:induction false} ChatMessagesStay(messages: seq<Json>)
    requires ChatMessages(messages)
    ensures InputMessages(messages) == Ok(messages)
  {
    hide InputMessage;
    hide ChatMessage;
    if messages != [] {
      ChatMessageStays(messages[0]);
      ChatMessagesStay(messages[1..]);
      assert [messages[0]] + messages[1..] == messages;
    }
  }

  lemma ConvertedIsChat(input: Json)
    requires ToMessages(input).Ok?
    ensures ChatMessages(ToMessages(input).value)
    ensures ToMessages(input).value == [] <==> input == Array([])
  {
    hide MessageContent;
    hide InputMessage;
    hide ChatMessage;
    hide LooksLikeMessage;
    hide Message;
    match input {
      case String(text) =>
        MessageIsChat("user", input);
      case Array(items) =>
        if forall i :: 0 <= i < |items| ==> LooksLikeMessage(items[i]) {
          MessagesBecomeChat(items);
        } else {
          ContentBecomesChat(input);
          MessageIsChat("user", MessageContent(input).value);
        }
      case Object(_) =>
        if LooksLikeMessage(input) {
          MessagesBecomeChat([input]);
        } else {
          ContentBecomesChat(input);
          MessageIsChat("user", MessageContent(input).value);
        }
      case _ =>
    }
  }

  lemma ChatConversationStays(messages: seq<Json>)
    requires ChatMessages(messages)
    ensures ToMessages(Array(messages)) == Ok(messages)
  {
    hide InputMessage;
    ChatMessagesStay(messages);
  }

  lemma InstructionsAreChat(fields: Fields)
    ensures ChatMessages(Instructions(fields))
  {
    hide ChatMessage;
    hide Message;
    hide Trim;
    if Instructions(fields) != [] {
      var text := Trim(fields["instructions"].s);
      MessageIsChat("system", String(text));
    }
  }

  // An empty `input` list without instructions leaves an existing `messages` member as it
  // was, untranslated.
  predicate LeavesMessages(fields: Fields) {
    "input" in fields && fields["input"] == Array([]) && Instructions(fields) == [] && "messages" in fields
  }

  // A conversation in chat form: a non-empty list of such messages.
  predicate InChatForm(messages: Json) {
    messages.Array? && messages.items != [] && ChatMessages(messages.items)
  }

  lemma TranslatedMessages(fields: Fields)
    requires Translated(fields).Ok?
    ensures var t := Translated(fields).value;
            && "instructions" !in t && "input" !in t && t - DroppedKeys() == t
            && ("messages" in t ==> if LeavesMessages(fields) then t["messages"] == fields["messages"]
                                     else InChatForm(t["messages"]))
            && (LeavesMessages(fields) ==> "messages" in t)
  {
    hide ToMessages;
    hide ChatMessages;
    hide Trim;
    DroppedNames();
    InstructionsAreChat(fields);
    if Source(fields).Some? {
      ConvertedIsChat(fields[Source(fields).value]);
      JoinChat(Instructions(fields), ToMessages(fields[Source(fields).value]).value);
    }
    var t := Translated(fields).value;
    assert t - DroppedKeys() == t;
  }

  lemma JoinChat(a: seq<Json>, b: seq<Json>)
    requires ChatMessages(a) && ChatMessages(b)
    ensures ChatMessages(a + b)
  {}

  // A body without instructions, input or dropped members translates to itself exactly when
  // its messages, if any, are in chat form.
  lemma ChatBodyStays(fields: Fields)
    requires "instructions" !in fields && "input" !in fields && fields - DroppedKeys() == fields
    ensures Translated(fields) == Ok(fields) <==> ("messages" in fields ==> InChatForm(fields["messages"]))
  {
    hide ToMessages;
    hide ChatMessages;
    DroppedNames();
    assert fields - {"instructions"} == fields;
    if "messages" in fields {
      var m := fields["messages"];
      assert (fields - {"instructions", "messages"})["messages" := m] == fields;
      assert Consumed(fields) == {"instructions", "messages"};
      if ToMessages(m).Ok? {
        ConvertedIsChat(m);
        assert [] + ToMessages(m).value == ToMessages(m).value;
      }
      if InChatForm(m) {
        ChatConversationStays(m.items);
        assert Translated(fields) == Ok(fields);
      }
    } else {
      assert Consumed(fields) == {"instructions"};
      assert Translated(fields) == Ok(fields);
    }
  }

  // Translating twice is translating once, except that messages left behind by an empty
  // input list must already be in chat form.
  lemma TranslationIsIdempotent(fields: Fields)
    requires Translated(fields).Ok?
    ensures var t := Translated(fields).value;
            Translated(t) == Ok(t) <==> (LeavesMessages(fields) ==> InChatForm(fields["messages"]))
  {
    hide Translated;
    TranslatedMessages(fields);
    ChatBodyStays(Translated(fields).value);
  }

  // Messages left behind as a bare text are translated the second time.
  lemma LeftBehind()
    ensures var body := map["input" := Array([]), "messages" := String("hi")];
            && Translated(body) == Ok(map["messages" := String("hi")])
            && Translated(map["messages" := String("hi")])
               == Ok(map["messages" := Array([Message("user", String("hi"))])])
  {
    hide Message;
    DroppedNames();
    var body := map["input" := Array([]), "messages" := String("hi")];
    assert Instructions(body) == [];
    NothingToConvert();
    assert Instructions(body) + [] == [];
    assert Conversation(body) == Ok([]);
    assert Consumed(body) == {"instructions", "input"};
    assert body - Consumed(body) - DroppedKeys() == map["messages" := String("hi")];
    var left := map["messages" := String("hi")];
    var messages := [Message("user", String("hi"))];
    assert Conversation(left) == Ok([] + messages) && [] + messages == messages;
    assert left - Consumed(left) == map[];
    assert Translated(left).value == map["messages" := Array(messages)];
  }

  lemma NothingToConvert()
    ensures ToMessages(Array([])) == Ok([])
  {
    ChatConversationStays([]);
  }
}
