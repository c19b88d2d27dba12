/**
 What a translated body delivers: message by message and block by block, the content it was made
 from.
 */
module NormalizeContent {
  import opened Results
  import opened Json
  import opened Text
  import opened Normalize

  /* ----- one block ----- */

  // The text under a name, or none at all.
  function TextUnder(item: Json, name: string): string {
    if item.Object? && name in item.fields && item.fields[name].String? then item.fields[name].s else ""
  }

  // The item is of one of the kinds; one that names no kind is a text.
  predicate OfKind(item: Json, kinds: set<string>) {
    && item.Object?
    && if "type" in item.fields && item.fields["type"].String? then item.fields["type"].s in kinds else "text" in kinds
  }

  // A text block with the item's text.
  predicate DeliversText(item: Json, block: Json) {
    && IsTextBlock(block)
    && block.fields["text"].s == if item.String? then item.s else TextUnder(item, "text")
  }

  // What a container starts from: the object under the first of two names there is, or else the
  // url given as a text under that name, or else the item's own url.
  datatype Start = Members(fields: Fields) | Url(url: string) | Nothing

  function StartOf(item: Json, name: string, other: string): Start
    requires item.Object?
  {
    var key := if name in item.fields then name else other;
    if key in item.fields && item.fields[key].Object? then Members(item.fields[key].fields)
    else if key in item.fields && item.fields[key].String? then Url(item.fields[key].s)
    else if "url" in item.fields && item.fields["url"].String? then Url(item.fields["url"].s)
    else Nothing
  }

  predicate Starts(start: Start, key: string, value: Json) {
    match start
    case Members(fields) => key in fields && fields[key] == value
    case Url(url) => key == "url" && value == String(url)
    case Nothing => false
  }

  // The container holds what it starts from and, where that has no such member, the item's
  // members of the names given; nothing else.
  ghost predicate Contains(container: Fields, start: Start, item: Json, names: set<string>)
    requires item.Object?
  {
    forall key, value ::
      (key in container && container[key] == value)
      <==> (Starts(start, key, value)
            || (key in names && key in item.fields && item.fields[key] == value
                && (forall v :: !Starts(start, key, v))))
  }

  ghost predicate DeliversBlock(item: Json, block: Json, kind: string, start: Start, names: set<string>)
    requires item.Object?
  {
    IsBlock(block, kind) && Contains(block.fields[kind].fields, start, item, names)
  }

  const AUDIO_NAMES := {"data", "format", "mime_type", "mesh_token", "blob_token", "token"}
  const FILE_NAMES := {"mime_type", "file_name", "filename", "mesh_token", "blob_token", "token"}

  ghost predicate Delivers(item: Json, block: Json) {
    if !item.Object? || OfKind(item, {"input_text", "text"}) then DeliversText(item, block)
    else if OfKind(item, {"input_image", "image_url", "image"}) then
      DeliversBlock(item, block, "image_url", StartOf(item, "image_url", "image"), {})
    else if OfKind(item, {"input_audio", "audio", "audio_url"}) then
      DeliversBlock(item, block, "input_audio", StartOf(item, "input_audio", "audio_url"), AUDIO_NAMES)
    else
      OfKind(item, {"input_file", "file"})
      && DeliversBlock(item, block, "input_file", StartOf(item, "input_file", "file"), FILE_NAMES)
  }

  // What an item is refused for.
  predicate Refused(item: Json, why: Fault) {
    && item.Object? && !OfKind(item, {"input_text", "text"})
    && if OfKind(item, {"input_image", "image_url", "image"}) then
         why == MissingImage && StartOf(item, "image_url", "image") == Nothing
       else if OfKind(item, {"input_audio", "audio", "audio_url"}) then
         && why == MissingAudio
         && StartOf(item, "input_audio", "audio_url") in {Nothing, Members(map[])}
         && forall name :: name in AUDIO_NAMES ==> name !in item.fields
       else if OfKind(item, {"input_file", "file"}) then
         why == MissingFile && StartOf(item, "input_file", "file") == Nothing
       else
         why == UnknownBlock(TextUnder(item, "type"))
  }

  function StartFields(start: Start): Fields {
    match start
    case Members(fields) => fields
    case Url(url) => map["url" := String(url)]
    case Nothing => map[]
  }

  lemma StartIs(item: Json, name: string, other: string)
    requires item.Object?
    ensures ObjectOrUrlContainer(item.Get(name).Or(item.Get(other)), item.GetStr("url"))
         == if StartOf(item, name, other) == Nothing then None else Some(StartFields(StartOf(item, name, other)))
  {}

  lemma {:induction false} Filled(container: Fields, item: Fields, keys: seq<string>)
    ensures var r := FillIn(container, item, keys);
            forall key :: key in r <==> key in container || (key in keys && key in item)
    ensures var r := FillIn(container, item, keys);
            forall key :: key in r ==> r[key] == if key in container then container[key] else item[key]
    decreases |keys|
  {
    if keys != [] {
      var k := keys[0];
      assert forall key :: key in keys <==> key == k || key in keys[1..];
      Filled(if k in item && k !in container then container[k := item[k]] else container, item, keys[1..]);
    }
  }

  lemma FilledContains(start: Start, item: Json, keys: seq<string>, names: set<string>)
    requires item.Object? && forall key :: key in keys <==> key in names
    ensures Contains(FillIn(StartFields(start), item.fields, keys), start, item, names)
  {
    Filled(StartFields(start), item.fields, keys);
    hide FillIn;
    var r := FillIn(StartFields(start), item.fields, keys);
    forall key, value
      ensures Starts(start, key, value) <==> key in StartFields(start) && StartFields(start)[key] == value
    {
    }
    forall key
      ensures (forall v :: !Starts(start, key, v)) <==> key !in StartFields(start)
    {
      if key in StartFields(start) {
        assert Starts(start, key, StartFields(start)[key]);
      }
    }
  }

  lemma BlockDelivers(item: Json, kind: string, start: Start, keys: seq<string>, names: set<string>)
    requires item.Object? && kind != "type" && forall key :: key in keys <==> key in names
    ensures DeliversBlock(item, Block(kind, FillIn(StartFields(start), item.fields, keys)), kind, start, names)
  {
    FilledContains(start, item, keys, names);
    hide FillIn;
    hide Contains;
  }

  lemma Names()
    ensures forall key :: key in AUDIO_KEYS <==> key in AUDIO_NAMES
    ensures forall key :: key in FILE_KEYS <==> key in FILE_NAMES
  {}

  lemma EmptyStart(start: Start)
    ensures StartFields(start) == map[] <==> start in {Nothing, Members(map[])}
  {
    if start.Url? {
      assert "url" in StartFields(start);
    }
  }

  lemma AudioIsEmpty(item: Json)
    requires item.Object?
    ensures var start := StartOf(item, "input_audio", "audio_url");
            FillIn(StartFields(start), item.fields, AUDIO_KEYS) == map[]
            <==> start in {Nothing, Members(map[])} && forall name :: name in AUDIO_NAMES ==> name !in item.fields
  {
    hide FillIn;
    var start := StartOf(item, "input_audio", "audio_url");
    Names();
    Filled(StartFields(start), item.fields, AUDIO_KEYS);
    hide StartOf;
    var r := FillIn(StartFields(start), item.fields, AUDIO_KEYS);
    EmptyStart(start);
    if r == map[] {
      forall key
        ensures key !in StartFields(start) && (key in AUDIO_NAMES ==> key !in item.fields)
      {
        assert key !in r;
      }
      assert StartFields(start) == map[];
    } else {
      var key :| key in r;
    }
  }

  lemma TextIsDelivered(item: Json)
    requires !item.Object? || OfKind(item, {"input_text", "text"})
    ensures ContentItem(item).Ok? && Delivers(item, ContentItem(item).value)
  {}

  lemma ImageIsDelivered(item: Json)
    requires OfKind(item, {"input_image", "image_url", "image"})
    ensures match ContentItem(item) case Ok(block) => Delivers(item, block) case Err(why) => Refused(item, why)
  {
    hide ObjectOrUrlContainer;
    hide StartOf;
    hide Contains;
    hide Block;
    hide IsBlock;
    var start := StartOf(item, "image_url", "image");
    StartIs(item, "image_url", "image");
    BlockDelivers(item, "image_url", start, [], {});
  }

  lemma AudioIsDelivered(item: Json)
    requires OfKind(item, {"input_audio", "audio", "audio_url"})
    ensures match ContentItem(item) case Ok(block) => Delivers(item, block) case Err(why) => Refused(item, why)
  {
    hide ObjectOrUrlContainer;
    hide StartOf;
    hide Contains;
    hide FillIn;
    hide Block;
    hide IsBlock;
    var start := StartOf(item, "input_audio", "audio_url");
    StartIs(item, "input_audio", "audio_url");
    Names();
    AudioIsEmpty(item);
    BlockDelivers(item, "input_audio", start, AUDIO_KEYS, AUDIO_NAMES);
  }

  lemma FileIsDelivered(item: Json)
    requires OfKind(item, {"input_file", "file"})
    ensures match ContentItem(item) case Ok(block) => Delivers(item, block) case Err(why) => Refused(item, why)
  {
    hide ObjectOrUrlContainer;
    hide StartOf;
    hide Contains;
    hide FillIn;
    hide Block;
    hide IsBlock;
    var start := StartOf(item, "input_file", "file");
    StartIs(item, "input_file", "file");
    Names();
    BlockDelivers(item, "input_file", start, FILE_KEYS, FILE_NAMES);
  }

  // Every item is delivered as its kind asks, or refused for what it lacks.
  lemma ItemIsDelivered(item: Json)
    ensures match ContentItem(item) case Ok(block) => Delivers(item, block) case Err(why) => Refused(item, why)
  {
    if !item.Object? || OfKind(item, {"input_text", "text"}) {
      TextIsDelivered(item);
    } else if OfKind(item, {"input_image", "image_url", "image"}) {
      ImageIsDelivered(item);
    } else if OfKind(item, {"input_audio", "audio", "audio_url"}) {
      AudioIsDelivered(item);
    } else if OfKind(item, {"input_file", "file"}) {
      FileIsDelivered(item);
    }
  }

  /* ----- contents and messages ----- */

  // One text block alone becomes its text.
  predicate Collapses(blocks: seq<Json>, content: Json) {
    if |blocks| == 1 && IsTextBlock(blocks[0]) then content == blocks[0].fields["text"] else content == Array(blocks)
  }

  ghost predicate AllDelivered(items: seq<Json>, blocks: seq<Json>) {
    |blocks| == |items| && forall i :: 0 <= i < |items| ==> Delivers(items[i], blocks[i])
  }

  ghost predicate ContentDelivered(content: Json, out: Json) {
    match content
    case String(_) => out == content
    case Array(items) => exists blocks :: AllDelivered(items, blocks) && Collapses(blocks, out)
    case Object(_) => exists block :: Delivers(content, block) && Collapses([block], out)
    case _ => false
  }

  ghost predicate FirstRefused(items: seq<Json>, i: nat, why: Fault)
    requires i < |items|
  {
    Refused(items[i], why) && forall j :: 0 <= j < i ==> Deliverable(items[j])
  }

  ghost predicate Deliverable(item: Json) {
    exists block :: Delivers(item, block)
  }

  // Refused for its first item that is refused.
  ghost predicate ContentRefused(content: Json, why: Fault) {
    match content
    case String(_) => false
    case Array(items) =>
      exists i :: 0 <= i < |items| && FirstRefused(items, i, why)
    case Object(_) => Refused(content, why)
    case _ => why == BadContent
  }

  lemma {:induction false} ItemsAreDelivered(items: seq<Json>)
    ensures match ContentItems(items)
            case Ok(blocks) => AllDelivered(items, blocks)
            case Err(why) => ContentRefused(Array(items), why)
  {
    hide ContentItem;
    hide Delivers;
    hide Refused;
    if items != [] {
      ItemIsDelivered(items[0]);
      ItemsAreDelivered(items[1..]);
      if ContentItem(items[0]).Ok? && ContentItems(items[1..]).Err? {
        var why, rest := ContentItems(items[1..]).error, items[1..];
        var i :| 0 <= i < |rest| && FirstRefused(rest, i, why);
        assert Delivers(items[0], ContentItem(items[0]).value);
        forall j | 0 <= j < i + 1
          ensures Deliverable(items[j])
        {
          if j > 0 {
            assert items[j] == rest[j - 1];
          }
        }
        assert FirstRefused(items, i + 1, why);
      } else if ContentItem(items[0]).Err? {
        assert FirstRefused(items, 0, ContentItem(items[0]).error);
      }
    }
  }

  lemma CollapsesSo(blocks: seq<Json>)
    requires forall b :: b in blocks ==> ChatBlock(b)
    ensures Collapses(blocks, CollapseIfTextOnly(blocks))
  {
    hide ChatBlock;
    if |blocks| == 1 {
      ChatBlockStays(blocks[0]);
    }
  }

  lemma ContentIsDelivered(content: Json)
    ensures match MessageContent(content)
            case Ok(out) => ContentDelivered(content, out)
            case Err(why) => ContentRefused(content, why)
  {
    hide ContentItem;
    hide Delivers;
    hide Refused;
    hide Collapses;
    hide CollapseIfTextOnly;
    hide ChatBlock;
    match content {
      case Array(items) =>
        ItemsAreDelivered(items);
        if ContentItems(items).Ok? {
          ItemsBecomeBlocks(items);
          CollapsesSo(ContentItems(items).value);
        }
      case Object(_) =>
        ItemIsDelivered(content);
        if ContentItem(content).Ok? {
          ItemBecomesBlock(content);
          CollapsesSo([ContentItem(content).value]);
        }
      case _ =>
    }
  }

  // A message: a role and a content and nothing else. The role is that of the original, the
  // user's when it has none, and that of the system instead of the developer's.
  ghost predicate MessageDelivered(message: Json, out: Json) {
    && message.Object? && out.Object? && out.fields.Keys == {"role", "content"}
    && out.fields["role"] == (
         if "role" !in message.fields || !message.fields["role"].String? then String("user")
         else if message.fields["role"].s == "developer" then String("system")
         else message.fields["role"])
    && if "content" in message.fields then ContentDelivered(message.fields["content"], out.fields["content"])
       else out.fields["content"] == String("")
  }

  ghost predicate MessageRefused(message: Json, why: Fault) {
    if !message.Object? then why == BadMessage
    else "content" in message.fields && ContentRefused(message.fields["content"], why)
  }

  lemma MessageIsDelivered(message: Json)
    ensures match InputMessage(message)
            case Ok(out) => MessageDelivered(message, out)
            case Err(why) => MessageRefused(message, why)
  {
    hide MessageContent;
    hide ContentDelivered;
    hide ContentRefused;
    if message.Object? && "content" in message.fields {
      ContentIsDelivered(message.fields["content"]);
    }
    assert "role" != "content" by { assert |"role"| == 4 && |"content"| == 7; }
  }

  ghost predicate MessagesDelivered(items: seq<Json>, messages: seq<Json>) {
    |messages| == |items| && forall i :: 0 <= i < |items| ==> MessageDelivered(items[i], messages[i])
  }

  lemma {:induction false} MessagesAreDelivered(items: seq<Json>)
    ensures match InputMessages(items)
            case Ok(messages) => MessagesDelivered(items, messages)
            case Err(why) => exists i :: 0 <= i < |items| && MessageRefused(items[i], why)
  {
    hide InputMessage;
    hide MessageDelivered;
    hide MessageRefused;
    if items != [] {
      MessageIsDelivered(items[0]);
      MessagesAreDelivered(items[1..]);
      if InputMessage(items[0]).Ok? && InputMessages(items[1..]).Err? {
        var why := InputMessages(items[1..]).error;
        var i :| 0 <= i < |items[1..]| && MessageRefused(items[1..][i], why);
        assert MessageRefused(items[i + 1], why);
      }
    }
  }

  // Every item is an object with a role or a content.
  predicate AreMessages(items: seq<Json>) {
    forall i :: 0 <= i < |items| ==> items[i].Object? && ("role" in items[i].fields || "content" in items[i].fields)
  }

  // One message of the user.
  ghost predicate UserSays(message: Json, input: Json) {
    && message.Object? && message.fields.Keys == {"role", "content"}
    && message.fields["role"] == String("user") && ContentDelivered(input, message.fields["content"])
  }

  // A text, a list that is not one of messages and an object that is no message are one message of
  // the user; messages are delivered one by one, in order.
  ghost predicate InputDelivered(input: Json, messages: seq<Json>) {
    match input
    case String(_) => |messages| == 1 && UserSays(messages[0], input)
    case Array(items) =>
      if AreMessages(items) then MessagesDelivered(items, messages)
      else |messages| == 1 && UserSays(messages[0], input)
    case Object(_) =>
      if AreMessages([input]) then MessagesDelivered([input], messages)
      else |messages| == 1 && UserSays(messages[0], input)
    case _ => false
  }

  ghost predicate InputRefused(input: Json, why: Fault) {
    match input
    case String(_) => false
    case Array(items) =>
      if AreMessages(items) then exists i :: 0 <= i < |items| && MessageRefused(items[i], why)
      else ContentRefused(input, why)
    case Object(_) =>
      if AreMessages([input]) then MessageRefused(input, why) else ContentRefused(input, why)
    case _ => why == BadInput
  }

  lemma UserMessage(input: Json)
    ensures match AsUserMessage(input)
            case Ok(messages) => |messages| == 1 && UserSays(messages[0], input)
            case Err(why) => ContentRefused(input, why)
  {
    hide MessageContent;
    hide ContentDelivered;
    hide ContentRefused;
    ContentIsDelivered(input);
    assert "role" != "content" by { assert |"role"| == 4 && |"content"| == 7; }
  }

  lemma InputIsDelivered(input: Json)
    ensures match ToMessages(input)
            case Ok(messages) => InputDelivered(input, messages)
            case Err(why) => InputRefused(input, why)
  {
    hide MessageContent;
    hide AsUserMessage;
    hide InputMessages;
    hide MessagesDelivered;
    hide MessageRefused;
    hide ContentRefused;
    match input {
      case String(_) => assert "role" != "content" by { assert |"role"| == 4 && |"content"| == 7; }
      case Array(items) =>
        MessagesAreDelivered(items);
        UserMessage(input);
      case Object(_) =>
        assert [input][0] == input && (AreMessages([input]) <==> LooksLikeMessage(input));
        MessagesAreDelivered([input]);
        UserMessage(input);
        if InputMessages([input]).Err? {
          var i :| 0 <= i < 1 && MessageRefused([input][i], InputMessages([input]).error);
        }
      case _ =>
    }
  }

  /* ----- whole bodies ----- */

  const UNSENT := {"include", "output", "output_text", "parallel_tool_calls", "previous_response_id", "reasoning",
                   "store", "text", "truncation"}

  // The instructions, without white space around them and unless blank, as the system's message.
  ghost predicate Instructs(fields: Fields, messages: seq<Json>) {
    if "instructions" in fields && fields["instructions"].String? && Trim(fields["instructions"].s) != "" then
      && |messages| == 1 && messages[0].Object? && messages[0].fields.Keys == {"role", "content"}
      && messages[0].fields["role"] == String("system")
      && messages[0].fields["content"] == String(Trim(fields["instructions"].s))
    else messages == []
  }

  // The conversation is the input or, without one, the messages.
  ghost predicate Says(fields: Fields, messages: seq<Json>) {
    if "input" in fields then InputDelivered(fields["input"], messages)
    else if "messages" in fields then InputDelivered(fields["messages"], messages)
    else messages == []
  }

  ghost predicate SaysAll(fields: Fields, messages: seq<Json>, instructions: nat) {
    instructions <= |messages| && Instructs(fields, messages[..instructions]) && Says(fields, messages[instructions..])
  }

  // First the instructions, then the conversation; the other members stay but for nine. With
  // nothing to say, what messages there are beside an input stay as they are.
  ghost predicate BodyDelivered(fields: Fields, t: Fields) {
    && (exists messages: seq<Json>, n: nat ::
          SaysAll(fields, messages, n)
          && (if messages != [] then "messages" in t && t["messages"] == Array(messages)
              else "messages" in t <==> "messages" in fields && "input" in fields)
          && (messages == [] && "messages" in t ==> t["messages"] == fields["messages"]))
    && (forall key :: key != "messages" ==>
          (key in t <==> key in fields && key !in UNSENT && key != "input" && key != "instructions"))
    && (forall key :: key in t && key != "messages" ==> t[key] == fields[key])
  }

  ghost predicate BodyRefused(fields: Fields, why: Fault) {
    if "input" in fields then InputRefused(fields["input"], why)
    else "messages" in fields && InputRefused(fields["messages"], why)
  }

  lemma DroppedAre()
    ensures DroppedKeys() == UNSENT && "messages" !in UNSENT
  {
    assert forall key :: key in DROPPED <==> key in UNSENT;
  }

  lemma ConversationIsDelivered(fields: Fields)
    ensures match Conversation(fields)
            case Ok(messages) => SaysAll(fields, messages, |Instructions(fields)|)
            case Err(why) => BodyRefused(fields, why)
  {
    hide ToMessages;
    hide InputDelivered;
    hide InputRefused;
    hide Trim;
    assert "role" != "content" by { assert |"role"| == 4 && |"content"| == 7; }
    var instructions := Instructions(fields);
    assert Instructs(fields, instructions);
    if Source(fields).Some? {
      InputIsDelivered(fields[Source(fields).value]);
      if ToMessages(fields[Source(fields).value]).Ok? {
        var said := ToMessages(fields[Source(fields).value]).value;
        assert (instructions + said)[..|instructions|] == instructions;
        assert (instructions + said)[|instructions|..] == said;
      }
    } else {
      assert instructions[..|instructions|] == instructions && instructions[|instructions|..] == [];
    }
  }

  lemma BodyIsDelivered(fields: Fields)
    ensures match Translated(fields) case Ok(t) => BodyDelivered(fields, t) case Err(why) => BodyRefused(fields, why)
  {
    hide Conversation;
    hide SaysAll;
    hide Instructions;
    hide BodyRefused;
    ConversationIsDelivered(fields);
    DroppedAre();
    if Conversation(fields).Ok? {
      var messages, n := Conversation(fields).value, |Instructions(fields)|;
      var t := Translated(fields).value;
      assert SaysAll(fields, messages, n);
    }
  }

  // The limit on tokens: its own value, else that of the completion alias, else that of the output
  // alias. The aliases go and nothing else changes.
  lemma MaxTokensIs(fields: Fields)
    ensures var r := Aliased(fields);
            && "max_completion_tokens" !in r && "max_output_tokens" !in r
            && ("max_tokens" in r <==>
                  "max_tokens" in fields || "max_completion_tokens" in fields || "max_output_tokens" in fields)
            && ("max_tokens" in r ==>
                  r["max_tokens"] == if "max_tokens" in fields then fields["max_tokens"]
                                     else if "max_completion_tokens" in fields then fields["max_completion_tokens"]
                                     else fields["max_output_tokens"])
            && forall key :: key !in {"max_tokens", "max_completion_tokens", "max_output_tokens"} ==>
                 (key in r <==> key in fields) && (key in r ==> r[key] == fields[key])
  {
    assert |"max_tokens"| == 10 && |"max_completion_tokens"| == 21 && |"max_output_tokens"| == 17;
  }

  // What becomes of the path: the query stays.
  lemma PathIs(path: string, query: string)
    requires '?' !in path
    ensures PathOnly(path) == path && PathOnly(path + "?" + query) == path
    ensures forall other :: RewritePath(path, other) == other
    ensures forall other :: RewritePath(path + "?" + query, other) == other + "?" + query
  {
    assert path[..|path|] == path;
    IndexOfIs(path, '?', |path|);
    CutAt(path, '?', query);
    hide IndexOf;
    assert path + "?" + query == path + ['?'] + query;
    assert (path + "?" + query)[|path|..] == "?" + query;
  }

  // The body has a member that the translation takes or drops.
  predicate Touched(fields: Fields) {
    exists key :: key in fields && key in UNSENT + {"instructions", "input", "messages"}
  }

  // A request for responses is translated onto the completions path, and its answer adapted as a
  // stream exactly when it asks for one; any other keeps its path, and only its aliases go. The
  // report says whether there was anything to do.
  lemma NormalizedIs(path: string, fields: Fields)
    ensures var aliases := "max_completion_tokens" in fields || "max_output_tokens" in fields;
            match Normalize.Normalize(path, Object(fields))
            case Ok(n) =>
              if PathOnly(path) == "/v1/responses" then
                && n.body.Object? && BodyDelivered(Aliased(fields), n.body.fields)
                && n.changed == (aliases || Touched(Aliased(fields)))
                && n.path == RewritePath(path, "/v1/chat/completions")
                && (n.adapter == ResponsesStream <==> "stream" in fields && fields["stream"] == Bool(true))
                && (n.adapter == ResponsesJson <==> n.adapter != ResponsesStream)
              else n == Normalized(Object(Aliased(fields)), aliases, path, NoAdapter)
            case Err(why) => PathOnly(path) == "/v1/responses" && BodyRefused(Aliased(fields), why)
  {
    hide Translated;
    hide BodyDelivered;
    hide BodyRefused;
    hide RewritePath;
    hide PathOnly;
    hide TranslationChanges;
    hide Touched;
    var aliased := Aliased(fields);
    BodyIsDelivered(aliased);
    StreamStays(fields);
    TouchedIs(aliased);
    hide Aliased;
  }

  lemma StreamStays(fields: Fields)
    ensures "stream" in Aliased(fields) <==> "stream" in fields
    ensures "stream" in fields ==> Aliased(fields)["stream"] == fields["stream"]
  {
    MaxTokensIs(fields);
    hide Aliased;
    assert |"stream"| == 6 && |"max_tokens"| == 10;
    assert |"max_completion_tokens"| == 21 && |"max_output_tokens"| == 17;
    assert "stream" !in {"max_tokens", "max_completion_tokens", "max_output_tokens"};
  }

  lemma TouchedIs(fields: Fields)
    ensures TranslationChanges(fields) <==> Touched(fields)
  {
    DroppedAre();
  }

  // Whatever is no object is left alone.
  lemma OtherBodiesStay(path: string, body: Json)
    requires !body.Object?
    ensures Normalize.Normalize(path, body) == Ok(Normalized(body, false, path, NoAdapter))
  {}

  // A block list of one input text is delivered as that text.
  lemma InputTextIsDelivered(text: string)
    ensures MessageContent(Array([Object(map["type" := String("input_text"), "text" := String(text)])]))
         == Ok(String(text))
  {
    hide ContentItem;
    var item := Object(map["type" := String("input_text"), "text" := String(text)]);
    assert "type" != "text" by { assert "type"[1] != "text"[1]; }
    TextIsDelivered(item);
    var block := ContentItem(item).value;
    assert [item][1..] == [] && ContentItems([item]) == Ok([block] + []);
    assert [block] + [] == [block];
    assert Delivers(item, block);
    assert block.fields["text"].s == text;
  }
}
