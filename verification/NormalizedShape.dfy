/**
 What normalisation does to the numbers in a body and to its nesting, on which it depends whether
 a JSON parser takes the result.
 */
module NormalizedShape {
  import opened Results
  import opened Json
  import opened Text
  import opened Normalize

  // Every number in the value has one of the given texts, and arrays and objects nest at most
  // `levels` deep.
  ghost predicate Fits(v: Json, numbers: string -> bool, levels: int)
    decreases v
  {
    match v
    case Number(text) => numbers(text)
    case Array(items) => levels >= 1 && forall i :: 0 <= i < |items| ==> Fits(items[i], numbers, levels - 1)
    case Object(fields) => levels >= 1 && forall k :: k in fields ==> Fits(fields[k], numbers, levels - 1)
    case _ => true
  }

  ghost predicate AllFit(fields: Fields, numbers: string -> bool, levels: int) {
    forall k :: k in fields ==> Fits(fields[k], numbers, levels)
  }

  ghost predicate EachFits(items: seq<Json>, numbers: string -> bool, levels: int) {
    forall i :: 0 <= i < |items| ==> Fits(items[i], numbers, levels)
  }

  lemma {:induction false} FitsDeeper(v: Json, numbers: string -> bool, levels: int, more: int)
    requires Fits(v, numbers, levels) && levels <= more
    ensures Fits(v, numbers, more)
    decreases v
  {
    match v {
      case Array(items) =>
        forall i | 0 <= i < |items|
          ensures Fits(items[i], numbers, more - 1)
        {
          FitsDeeper(items[i], numbers, levels - 1, more - 1);
        }
      case Object(fields) =>
        forall k | k in fields
          ensures Fits(fields[k], numbers, more - 1)
        {
          FitsDeeper(fields[k], numbers, levels - 1, more - 1);
        }
      case _ =>
    }
  }

  lemma AllFitDeeper(fields: Fields, numbers: string -> bool, levels: int, more: int)
    requires AllFit(fields, numbers, levels) && levels <= more
    ensures AllFit(fields, numbers, more)
  {
    hide Fits;
    forall k | k in fields
      ensures Fits(fields[k], numbers, more)
    {
      FitsDeeper(fields[k], numbers, levels, more);
    }
  }

  lemma EachFitsDeeper(items: seq<Json>, numbers: string -> bool, levels: int, more: int)
    requires EachFits(items, numbers, levels) && levels <= more
    ensures EachFits(items, numbers, more)
  {
    hide Fits;
    forall i | 0 <= i < |items|
      ensures Fits(items[i], numbers, more)
    {
      FitsDeeper(items[i], numbers, levels, more);
    }
  }

  lemma ObjectFits(fields: Fields, numbers: string -> bool, levels: int)
    ensures Fits(Object(fields), numbers, levels) <==> levels >= 1 && AllFit(fields, numbers, levels - 1)
  {}

  lemma ListFits(items: seq<Json>, numbers: string -> bool, levels: int)
    ensures Fits(Array(items), numbers, levels) <==> levels >= 1 && EachFits(items, numbers, levels - 1)
  {}

  lemma TextFits(text: string, numbers: string -> bool, levels: int)
    ensures Fits(String(text), numbers, levels)
  {}

  lemma EitherFits(v: Json, key: string, other: string, numbers: string -> bool, levels: int)
    requires Fits(v, numbers, levels)
    ensures v.Get(key).Or(v.Get(other)).Some? ==> Fits(v.Get(key).Or(v.Get(other)).value, numbers, levels - 1)
  {}

  lemma ContainerFits(value: Option<Json>, url: Option<string>, numbers: string -> bool, levels: int)
    requires value.Some? ==> Fits(value.value, numbers, levels)
    ensures ObjectOrUrlContainer(value, url).Some? ==>
              AllFit(ObjectOrUrlContainer(value, url).value, numbers, levels - 1)
  {
    if value.Some? && value.value.Object? {
      assert ObjectOrUrlContainer(value, url).value == value.value.fields;
    }
  }

  lemma {:induction false} FillInFits(container: Fields, item: Fields, keys: seq<string>, numbers: string -> bool,
                                      levels: int)
    requires AllFit(container, numbers, levels) && AllFit(item, numbers, levels)
    ensures AllFit(FillIn(container, item, keys), numbers, levels)
    decreases |keys|
  {
    hide Fits;
    if keys != [] {
      var k := keys[0];
      FillInFits(if k in item && k !in container then container[k := item[k]] else container, item, keys[1..],
                 numbers, levels);
    }
  }

  lemma BlockFits(kind: string, container: Fields, numbers: string -> bool, levels: int)
    requires AllFit(container, numbers, levels) && levels >= 0
    ensures Fits(Block(kind, container), numbers, levels + 2)
  {
    assert Fits(Object(container), numbers, levels + 1);
    assert Fits(String(kind), numbers, levels + 1);
  }

  lemma TextBlockFits(text: string, numbers: string -> bool, levels: int)
    requires levels >= 1
    ensures Fits(TextBlock(text), numbers, levels)
  {}

  // A block is one level deeper than what it was made from: a member of the item can become a
  // member of the container inside.
  lemma ItemFits(item: Json, numbers: string -> bool, levels: int)
    requires Fits(item, numbers, levels) && levels >= 0 && ContentItem(item).Ok?
    ensures Fits(ContentItem(item).value, numbers, levels + 1)
  {
    hide Fits;
    hide FillIn;
    hide ObjectOrUrlContainer;
    hide Block;
    hide TextBlock;
    var kind, url := item.GetStr("type").GetOr("text"), item.GetStr("url");
    if !item.Object? {
      TextBlockFits(item.AsStr().GetOr(""), numbers, levels + 1);
      return;
    }
    ObjectFits(item.fields, numbers, levels);
    if kind == "input_text" || kind == "text" {
      TextBlockFits(item.GetStr("text").GetOr(""), numbers, levels + 1);
    } else if kind == "input_image" || kind == "image_url" || kind == "image" {
      var value := item.Get("image_url").Or(item.Get("image"));
      EitherFits(item, "image_url", "image", numbers, levels);
      StartFits(value, url, numbers, levels - 1);
      BlockFits("image_url", ObjectOrUrlContainer(value, url).value, numbers, levels - 1);
    } else if kind == "input_audio" || kind == "audio" || kind == "audio_url" {
      var value := item.Get("input_audio").Or(item.Get("audio_url"));
      EitherFits(item, "input_audio", "audio_url", numbers, levels);
      StartFits(value, url, numbers, levels - 1);
      var start := ObjectOrUrlContainer(value, url).GetOr(map[]);
      FillInFits(start, item.fields, AUDIO_KEYS, numbers, levels - 1);
      BlockFits("input_audio", FillIn(start, item.fields, AUDIO_KEYS), numbers, levels - 1);
    } else {
      var value := item.Get("input_file").Or(item.Get("file"));
      EitherFits(item, "input_file", "file", numbers, levels);
      StartFits(value, url, numbers, levels - 1);
      var start := ObjectOrUrlContainer(value, url).value;
      FillInFits(start, item.fields, FILE_KEYS, numbers, levels - 1);
      BlockFits("input_file", FillIn(start, item.fields, FILE_KEYS), numbers, levels - 1);
    }
  }

  lemma StartFits(value: Option<Json>, url: Option<string>, numbers: string -> bool, levels: int)
    requires value.Some? ==> Fits(value.value, numbers, levels)
    ensures ObjectOrUrlContainer(value, url).Some? ==> AllFit(ObjectOrUrlContainer(value, url).value, numbers, levels)
  {
    hide Fits;
    hide ObjectOrUrlContainer;
    ContainerFits(value, url, numbers, levels);
    if ObjectOrUrlContainer(value, url).Some? {
      AllFitDeeper(ObjectOrUrlContainer(value, url).value, numbers, levels - 1, levels);
    }
  }

  lemma {:induction false} ItemsFit(items: seq<Json>, numbers: string -> bool, levels: int)
    requires EachFits(items, numbers, levels) && levels >= 0 && ContentItems(items).Ok?
    ensures EachFits(ContentItems(items).value, numbers, levels + 1)
    decreases |items|
  {
    hide Fits;
    hide ContentItem;
    if items != [] {
      ItemFits(items[0], numbers, levels);
      ItemsFit(items[1..], numbers, levels);
    }
  }

  // One more for the list that a single block is put in.
  lemma ContentFits(content: Json, numbers: string -> bool, levels: int)
    requires Fits(content, numbers, levels) && levels >= 0 && MessageContent(content).Ok?
    ensures Fits(MessageContent(content).value, numbers, levels + 2)
  {
    hide Fits;
    hide ContentItem;
    match content {
      case Array(items) =>
        ListFits(items, numbers, levels);
        ItemsFit(items, numbers, levels - 1);
        CollapsedFits(ContentItems(items).value, numbers, levels);
        FitsDeeper(MessageContent(content).value, numbers, levels + 1, levels + 2);
      case Object(_) =>
        ItemFits(content, numbers, levels);
        CollapsedFits([ContentItem(content).value], numbers, levels + 1);
      case String(text) => TextFits(text, numbers, levels + 2);
      case _ =>
    }
  }

  lemma CollapsedFits(blocks: seq<Json>, numbers: string -> bool, levels: int)
    requires EachFits(blocks, numbers, levels) && levels >= 0
    ensures Fits(CollapseIfTextOnly(blocks), numbers, levels + 1)
  {
    hide Fits;
    ListFits(blocks, numbers, levels + 1);
    if |blocks| == 1 && blocks[0].GetStr("text").Some? {
      TextFits(blocks[0].GetStr("text").value, numbers, levels + 1);
    }
  }

  lemma MessageFits(role: string, content: Json, numbers: string -> bool, levels: int)
    requires Fits(content, numbers, levels) && levels >= 0
    ensures Fits(Message(role, content), numbers, levels + 1)
  {
    assert Fits(String(role), numbers, levels);
  }

  lemma InputMessageFits(message: Json, numbers: string -> bool, levels: int)
    requires Fits(message, numbers, levels) && levels >= 0 && InputMessage(message).Ok?
    ensures Fits(InputMessage(message).value, numbers, levels + 2)
  {
    hide Fits;
    hide Message;
    hide MessageContent;
    var role := MapRole(message.GetStr("role").GetOr("user"));
    ObjectFits(message.fields, numbers, levels);
    match message.Get("content") {
      case None =>
        TextFits("", numbers, levels + 1);
        MessageFits(role, String(""), numbers, levels + 1);
      case Some(content) =>
        EitherFits(message, "content", "content", numbers, levels);
        ContentFits(content, numbers, levels - 1);
        MessageFits(role, MessageContent(content).value, numbers, levels + 1);
    }
  }

  lemma {:induction false} InputMessagesFit(items: seq<Json>, numbers: string -> bool, levels: int)
    requires EachFits(items, numbers, levels) && levels >= 0 && InputMessages(items).Ok?
    ensures EachFits(InputMessages(items).value, numbers, levels + 2)
    decreases |items|
  {
    hide Fits;
    hide InputMessage;
    if items != [] {
      InputMessageFits(items[0], numbers, levels);
      InputMessagesFit(items[1..], numbers, levels);
    }
  }

  // And one for the message around it.
  lemma ConvertedFits(input: Json, numbers: string -> bool, levels: int)
    requires Fits(input, numbers, levels) && levels >= 0 && ToMessages(input).Ok?
    ensures EachFits(ToMessages(input).value, numbers, levels + 3)
  {
    hide Fits;
    hide Message;
    hide MessageContent;
    hide InputMessages;
    hide LooksLikeMessage;
    if MessageContent(input).Ok? {
      ContentFits(input, numbers, levels);
      MessageFits("user", MessageContent(input).value, numbers, levels + 2);
    }
    match input {
      case String(text) =>
        TextFits(text, numbers, levels + 2);
        MessageFits("user", input, numbers, levels + 2);
      case Array(items) =>
        ListFits(items, numbers, levels);
        if InputMessages(items).Ok? {
          InputMessagesFit(items, numbers, levels - 1);
          EachFitsDeeper(InputMessages(items).value, numbers, levels + 1, levels + 3);
        }
      case Object(_) =>
        if InputMessages([input]).Ok? {
          InputMessagesFit([input], numbers, levels);
          EachFitsDeeper(InputMessages([input]).value, numbers, levels + 2, levels + 3);
        }
      case _ =>
    }
  }

  lemma InstructionsFit(fields: Fields, numbers: string -> bool, levels: int)
    requires levels >= 1
    ensures EachFits(Instructions(fields), numbers, levels)
  {
    hide Fits;
    hide Message;
    hide Trim;
    if Instructions(fields) != [] {
      var text := Trim(fields["instructions"].s);
      TextFits(text, numbers, levels - 1);
      MessageFits("system", String(text), numbers, levels - 1);
    }
  }

  lemma TranslatedFits(fields: Fields, numbers: string -> bool, levels: int)
    requires AllFit(fields, numbers, levels) && levels >= 0 && Translated(fields).Ok?
    ensures AllFit(Translated(fields).value, numbers, levels + 4)
  {
    hide Fits;
    hide ToMessages;
    hide Instructions;
    InstructionsFit(fields, numbers, levels + 3);
    if Source(fields).Some? {
      ConvertedFits(fields[Source(fields).value], numbers, levels);
    }
    var messages := Conversation(fields).value;
    assert EachFits(messages, numbers, levels + 3);
    ListFits(messages, numbers, levels + 4);
    AllFitDeeper(fields, numbers, levels, levels + 4);
  }

  lemma AliasedFits(fields: Fields, numbers: string -> bool, levels: int)
    requires AllFit(fields, numbers, levels)
    ensures AllFit(Aliased(fields), numbers, levels)
  {
    hide Fits;
  }

  // A normalised body holds no number that the body did not hold, and nests at most four levels
  // deeper.
  lemma NormalizeFits(path: string, body: Json, numbers: string -> bool, levels: int)
    requires Fits(body, numbers, levels) && Normalize.Normalize(path, body).Ok?
    ensures Fits(Normalize.Normalize(path, body).value.body, numbers, levels + 4)
  {
    hide Fits;
    hide Translated;
    hide TranslationChanges;
    hide Aliased;
    hide PathOnly;
    hide RewritePath;
    FitsDeeper(body, numbers, levels, levels + 4);
    if body.Object? {
      ObjectFits(body.fields, numbers, levels);
      var aliased := Aliased(body.fields);
      AliasedFits(body.fields, numbers, levels - 1);
      ObjectFits(aliased, numbers, levels);
      FitsDeeper(Object(aliased), numbers, levels, levels + 4);
      if Translated(aliased).Ok? {
        TranslatedFits(aliased, numbers, levels - 1);
        ObjectFits(Translated(aliased).value, numbers, levels + 4);
      }
    }
  }

  /* ----- two concrete bodies ----- */

  const RESPONSES := "/v1/responses"
  const COMPLETIONS := "/v1/chat/completions"

  lemma ResponsesPath()
    ensures PathOnly(RESPONSES) == RESPONSES && RewritePath(RESPONSES, COMPLETIONS) == COMPLETIONS
  {
    hide IndexOf;
    assert forall i :: 0 <= i < |RESPONSES| ==> RESPONSES[i] != '?';
    assert RESPONSES[..|RESPONSES|] == RESPONSES;
    IndexOfIs(RESPONSES, '?', |RESPONSES|);
  }

  function OnlyInput(input: Json): Json {
    Object(map["input" := input])
  }

  function OnlyMessage(content: Json): Json {
    Object(map["messages" := Array([Message("user", content)])])
  }

  lemma InputTranslates(input: Json, content: Json)
    requires ToMessages(input) == Ok([Message("user", content)])
    ensures Translated(OnlyInput(input).fields) == Ok(OnlyMessage(content).fields)
  {
    hide ToMessages;
    hide Message;
    var fields := OnlyInput(input).fields;
    var messages := [Message("user", content)];
    assert |"input"| == 5 && |"instructions"| == 12;
    assert fields["input"] == input && Instructions(fields) == [];
    assert Conversation(fields) == Ok([] + messages) && [] + messages == messages;
    assert fields - Consumed(fields) == map[];
    DroppedNames();
    assert map["messages" := Array(messages)] - DroppedKeys() == map["messages" := Array(messages)];
  }

  // A body with an input and nothing else, when the input becomes one message of the user.
  lemma InputNormalizes(input: Json, content: Json)
    requires ToMessages(input) == Ok([Message("user", content)])
    ensures Normalize.Normalize(RESPONSES, OnlyInput(input))
         == Ok(Normalized(OnlyMessage(content), true, COMPLETIONS, ResponsesJson))
  {
    hide ToMessages;
    hide Message;
    hide Translated;
    hide PathOnly;
    hide RewritePath;
    ResponsesPath();
    InputTranslates(input, content);
    var fields := OnlyInput(input).fields;
    assert |"input"| == 5 && |"stream"| == 6 && "input" != "max_tokens";
    assert |"max_tokens"| == 10 && |"max_completion_tokens"| == 21 && |"max_output_tokens"| == 17;
    assert Aliased(fields) == fields && !HasAlias(fields);
    assert TranslationChanges(fields) && AdapterFor(fields) == ResponsesJson;
  }

  // An audio item with its data outside the container: what the data nests, the result nests four
  // levels deeper than the body did.
  function Audio(data: Json): Json {
    Object(map["type" := String("audio"), "data" := data])
  }

  function AudioBlock(data: Json): Json {
    Block("input_audio", map["data" := data])
  }

  lemma AudioIsFilledIn(data: Json)
    ensures FillIn(map[], Audio(data).fields, AUDIO_KEYS) == map["data" := data]
  {
    var item := Audio(data).fields;
    assert AUDIO_KEYS[0] == "data" && FillIn(map[], item, AUDIO_KEYS)
        == FillIn(map["data" := data], item, AUDIO_KEYS[1..]);
    FillInNothing(map["data" := data], item, AUDIO_KEYS[1..]);
  }

  lemma AudioBecomesBlock(data: Json)
    ensures ToMessages(Audio(data)) == Ok([Message("user", Array([AudioBlock(data)]))])
  {
    hide FillIn;
    hide Message;
    AudioIsFilledIn(data);
    var item := Audio(data);
    assert |"audio"| == 5 && |"data"| == 4 && |"type"| == 4 && |"url"| == 3 && "data" != "type";
    assert item.GetStr("type") == Some("audio") && item.GetStr("url") == None;
    assert item.Get("input_audio") == None && item.Get("audio_url") == None;
    assert |"input_text"| == 10 && |"text"| == 4 && |"input_image"| == 11 && |"image_url"| == 9;
    assert "audio"[0] == 'a' && "image"[0] == 'i';
    assert map["data" := data] != map[] by {
      assert "data" in map["data" := data];
    }
    assert ContentItem(item) == Ok(AudioBlock(data));
    assert AudioBlock(data).GetStr("text") == None;
    assert !LooksLikeMessage(item);
  }

  // Of an object only one member can be anything but a text.
  lemma OneMemberFits(fields: Fields, key: string, numbers: string -> bool, levels: int)
    requires key in fields && forall k :: k in fields && k != key ==> fields[k].String?
    ensures Fits(Object(fields), numbers, levels) <==> levels >= 1 && Fits(fields[key], numbers, levels - 1)
  {
    hide Fits;
    ObjectFits(fields, numbers, levels);
    forall k | k in fields && k != key
      ensures Fits(fields[k], numbers, levels - 1)
    {
      TextFits(fields[k].s, numbers, levels - 1);
    }
  }

  lemma AudioBlockFits(data: Json, numbers: string -> bool, levels: int)
    ensures Fits(AudioBlock(data), numbers, levels) <==> levels >= 2 && Fits(data, numbers, levels - 2)
    ensures Fits(OnlyInput(Audio(data)), numbers, levels) <==> levels >= 2 && Fits(data, numbers, levels - 2)
  {
    hide Fits;
    assert "data" != "type" by { assert "data"[0] != "type"[0]; }
    assert "input_audio" != "type" by { assert |"input_audio"| != |"type"|; }
    OneMemberFits(map["data" := data], "data", numbers, levels - 1);
    OneMemberFits(AudioBlock(data).fields, "input_audio", numbers, levels);
    OneMemberFits(Audio(data).fields, "data", numbers, levels - 1);
    OneMemberFits(OnlyInput(Audio(data)).fields, "input", numbers, levels);
  }

  lemma OnlyMessageFits(content: Json, numbers: string -> bool, levels: int)
    ensures Fits(OnlyMessage(content), numbers, levels) <==> levels >= 3 && Fits(content, numbers, levels - 3)
  {
    hide Fits;
    var message := Message("user", content);
    assert "content" != "role" by { assert |"content"| != |"role"|; }
    OneMemberFits(message.fields, "content", numbers, levels - 2);
    OneItemFits(message, numbers, levels - 1);
    OneMemberFits(OnlyMessage(content).fields, "messages", numbers, levels);
  }

  lemma OneItemFits(item: Json, numbers: string -> bool, levels: int)
    ensures Fits(Array([item]), numbers, levels) <==> levels >= 1 && Fits(item, numbers, levels - 1)
  {
    hide Fits;
    ListFits([item], numbers, levels);
    assert [item][0] == item;
  }

  lemma AudioDeepensByFour(data: Json, numbers: string -> bool, levels: int)
    ensures Normalize.Normalize(RESPONSES, OnlyInput(Audio(data))).Ok?
    ensures Fits(OnlyInput(Audio(data)), numbers, levels) <==> levels >= 2 && Fits(data, numbers, levels - 2)
    ensures Fits(Normalize.Normalize(RESPONSES, OnlyInput(Audio(data))).value.body, numbers, levels)
            <==> levels >= 6 && Fits(data, numbers, levels - 6)
  {
    hide Fits;
    hide ToMessages;
    hide Message;
    hide Normalize.Normalize;
    hide Audio;
    hide AudioBlock;
    hide OnlyInput;
    hide OnlyMessage;
    AudioBecomesBlock(data);
    AudioBlockFits(data, numbers, levels);
    AudioBlockFits(data, numbers, levels - 4);
    var content := Array([AudioBlock(data)]);
    InputNormalizes(Audio(data), content);
    OnlyMessageFits(content, numbers, levels);
    OneItemFits(AudioBlock(data), numbers, levels - 3);
  }
}
