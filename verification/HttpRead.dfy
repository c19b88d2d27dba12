/**
 Reading a request from a transport that cuts the byte stream anywhere, and rebuilding it
 for forwarding.
 */
module HttpRead {
  import opened Results
  import opened Wire
  import opened Text
  import opened HttpHead
  import opened Json
  import Utf8
  import Chunked
  import Normalize

  const MAX_HEADER_BYTES: nat := 64 * 1024
  const MAX_BODY_BYTES: nat := 8 * 1024 * 1024
  const MAX_OBJECT_UPLOAD_BODY_BYTES: nat := 64 * 1024 * 1024
  const READ_SIZE: nat := 8192

  datatype Limits = Limits(body: nat, wire: nat)

  function WireLimit(body: nat): nat {
    body * 6 + 64 * 1024
  }

  function BodyLimits(path: string): (r: Limits)
    ensures r.wire == WireLimit(r.body) && r.body < U64_LIMIT
  {
    if Normalize.PathOnly(path) == "/api/objects"
    then Limits(MAX_OBJECT_UPLOAD_BODY_BYTES, WireLimit(MAX_OBJECT_UPLOAD_BODY_BYTES))
    else Limits(MAX_BODY_BYTES, WireLimit(MAX_BODY_BYTES))
  }

  datatype Fault =
    | UnexpectedEof
    | HeadTooLarge
    | BadHead
    | BadContentLength
    | BodyTooLarge
    | WireTooLarge
    | BadChunk(chunk: Chunked.Fault)
    | ChunkOverflow  // no error of the program: the decoder does not return
    | Untranslatable(why: Normalize.Fault)

  // A result, and what the transport still holds then.
  datatype Outcome<T> = Outcome(result: Result<T, Fault>, incoming: seq<Bytes>)

  /* ----- what the headers say about the body ----- */

  datatype Framing = Framing(contentLength: Option<nat>, chunked: bool, expects: bool)

  function ValueText(value: Bytes): string {
    Utf8.Decode(value).GetOr("")
  }

  // Some part of a comma-separated list is `word`.
  predicate ListHas(parts: seq<string>, word: string) {
    exists i :: 0 <= i < |parts| && SameIgnoringCase(Trim(parts[i]), word)
  }

  // The headers the program looks for, compared without case.
  datatype Kind = ContentLength | TransferEncoding | Expect | Connection | Other

  function KindOf(h: Header): Kind {
    var name := Lower(h.name);
    if name == "content-length" then ContentLength
    else if name == "transfer-encoding" then TransferEncoding
    else if name == "expect" then Expect
    else if name == "connection" then Connection
    else Other
  }

  // One header folded into the framing; None for an unreadable Content-Length.
  function Fold(f: Framing, h: Header): Option<Framing> {
    match KindOf(h)
    case ContentLength =>
      (match ParseUnsigned(Trim(ValueText(h.value)), 10, U64_LIMIT)
       case None => None
       case Some(n) => Some(f.(contentLength := Some(n))))
    case TransferEncoding => Some(f.(chunked := ListHas(Split(ValueText(h.value), ','), "chunked")))
    case Expect => Some(f.(expects := ListHas(Split(ValueText(h.value), ','), "100-continue")))
    case _ => Some(f)
  }

  function FoldAll(f: Framing, headers: seq<Header>): Option<Framing>
    decreases |headers|
  {
    hide Fold;
    if headers == [] then Some(f)
    else
      match Fold(f, headers[0])
      case None => None
      case Some(next) => FoldAll(next, headers[1..])
  }

  const UNFRAMED := Framing(None, false, false)

  function FramingOf(headers: seq<Header>): Option<Framing> {
    match FoldAll(UNFRAMED, headers)
    case None => None
    case Some(f) => Some(if f.chunked then f.(contentLength := None) else f)
  }

  /* ----- the reading loops as functions of the fragments ----- */

  predicate Ended(incoming: seq<Bytes>) {
    incoming == [] || incoming[0] == []
  }

  datatype HeadRead = HeadRead(raw: Bytes, end: nat, head: Head)

  function ReadHead(raw: Bytes, incoming: seq<Bytes>): Outcome<HeadRead>
    decreases |incoming|
  {
    match ParseHead(raw)
    case Parsed(end, head) => Outcome(Ok(HeadRead(raw, end, head)), incoming)
    case Malformed => Outcome(Err(BadHead), incoming)
    case Partial =>
      if |raw| >= MAX_HEADER_BYTES then Outcome(Err(HeadTooLarge), incoming)
      else if Ended(incoming) then Outcome(Err(UnexpectedEof), incoming)
      else ReadHead(raw + incoming[0], incoming[1..])
  }

  // The raw request cut at its end, and its decoded body.
  datatype BodyRead = BodyRead(raw: Bytes, body: Bytes)

  function ReadChunked(raw: Bytes, end: nat, limits: Limits, incoming: seq<Bytes>): Outcome<BodyRead>
    requires end <= |raw|
    decreases |incoming|
  {
    match Chunked.Decoded(raw[end..], limits.body)
    case Invalid(fault) => Outcome(Err(BadChunk(fault)), incoming)
    case Overflow => Outcome(Err(ChunkOverflow), incoming)
    case Complete(consumed, body) =>
      Chunked.CompleteIsTight(raw[end..], limits.body, 0);
      Outcome(Ok(BodyRead(raw[..end + consumed], body)), incoming)
    case NeedMore =>
      if Ended(incoming) then Outcome(Err(UnexpectedEof), incoming)
      else if |raw + incoming[0]| - end > limits.wire then Outcome(Err(WireTooLarge), incoming[1..])
      else ReadChunked(raw + incoming[0], end, limits, incoming[1..])
  }

  function ReadSized(raw: Bytes, end: nat, bodyEnd: nat, incoming: seq<Bytes>): Outcome<BodyRead>
    requires end <= bodyEnd
    decreases |incoming|
  {
    if |raw| >= bodyEnd then Outcome(Ok(BodyRead(raw[..bodyEnd], raw[end..bodyEnd])), incoming)
    else if Ended(incoming) then Outcome(Err(UnexpectedEof), incoming)
    else ReadSized(raw + incoming[0], end, bodyEnd, incoming[1..])
  }

  function ReadBody(raw: Bytes, end: nat, framing: Framing, limits: Limits, incoming: seq<Bytes>): Outcome<BodyRead>
    requires end <= |raw|
  {
    if framing.chunked then ReadChunked(raw, end, limits, incoming)
    else if framing.contentLength.Some? then
      if framing.contentLength.value > limits.body then Outcome(Err(BodyTooLarge), incoming)
      else ReadSized(raw, end, end + framing.contentLength.value, incoming)
    else Outcome(Ok(BodyRead(raw[..end], [])), incoming)
  }

  /* ----- the forwarded request ----- */

  predicate Dropped(kind: Kind, stripExpect: bool, rewritten: bool) {
    kind == Connection || (stripExpect && kind == Expect)
    || (rewritten && (kind == ContentLength || kind == TransferEncoding))
  }

  // A value that is not UTF-8 is forwarded as an empty one.
  function Readable(h: Header): Header {
    h.(value := if Utf8.Decode(h.value).Some? then h.value else [])
  }

  // What `finalize_forwarded_request` keeps of the headers.
  function Kept(headers: seq<Header>, stripExpect: bool, rewritten: bool): seq<Header> {
    if headers == [] then []
    else
      var rest := Kept(headers[1..], stripExpect, rewritten);
      if Dropped(KindOf(headers[0]), stripExpect, rewritten) then rest else [Readable(headers[0])] + rest
  }

  const CLOSE := Header("Connection", Utf8.Encode("close"))

  function LengthHeader(n: nat): Header {
    Header("Content-Length", Utf8.Encode(Decimal(n)))
  }

  function ForwardedHead(head: Head, stripExpect: bool, path: string, rewritten: Option<Bytes>): Head {
    var kept := Kept(head.headers, stripExpect, rewritten.Some?);
    var length := if rewritten.Some? then [LengthHeader(|rewritten.value|)] else [];
    Head(head.verb, path, head.version, kept + length + [CLOSE])
  }

  datatype Forward = Forward(head: Head, body: Bytes, rewritten: bool, json: Option<Json>, adapter: Normalize.Adapter)

  datatype Request = Request(raw: Bytes, verb: string, path: string, json: Option<Json>,
                             modelName: Option<string>, sessionHint: Option<string>, adapter: Normalize.Adapter)

  function Finished(f: Forward): Request {
    var model := if f.json.Some? then f.json.value.GetStr("model") else None;
    var session :=
      if f.json.Some? then f.json.value.GetStr("user").Or(f.json.value.GetStr("session_id")) else None;
    Request(PrintHead(f.head) + f.body, f.head.verb, f.head.path, f.json, model, session, f.adapter)
  }

  // From a read request to the forwarded one.
  function Rebuild(head: Head, end: nat, expects: bool, read: BodyRead, codec: Codec): Result<Forward, Fault>
    requires end <= |read.raw|
  {
    var wire := read.raw[end..];
    var parsed := if read.body == [] then None else codec.parse(read.body);
    if parsed.None? then
      Ok(Forward(ForwardedHead(head, expects, head.path, None), wire, false, None, Normalize.NoAdapter))
    else
      match Normalize.Normalize(head.path, parsed.value)
      case Err(why) => Err(Untranslatable(why))
      case Ok(n) =>
        if n.changed then
          var body := codec.render(n.body);
          Ok(Forward(ForwardedHead(head, expects, n.path, Some(body)), body, true, Some(n.body), n.adapter))
        else
          Ok(Forward(ForwardedHead(head, expects, n.path, None), wire, false, Some(n.body), n.adapter))
  }

  // After the head: framing, body, rebuilding.
  function Continue(h: HeadRead, codec: Codec, incoming: seq<Bytes>): Outcome<Forward>
    requires h.end <= |h.raw|
  {
    match FramingOf(h.head.headers)
    case None => Outcome(Err(BadContentLength), incoming)
    case Some(framing) =>
      var body := ReadBody(h.raw, h.end, framing, BodyLimits(h.head.path), incoming);
      match body.result
      case Err(e) => Outcome(Err(e), body.incoming)
      case Ok(read) =>
        BodyKeepsHead(h.raw, h.end, framing, BodyLimits(h.head.path), incoming);
        Outcome(Rebuild(h.head, h.end, framing.expects, read, codec), body.incoming)
  }

  function Accept(incoming: seq<Bytes>, codec: Codec): Outcome<Forward> {
    var h := ReadHead([], incoming);
    match h.result
    case Err(e) => Outcome(Err(e), h.incoming)
    case Ok(read) =>
      HeadIsInside([], incoming);
      Continue(read, codec, h.incoming)
  }

  function ReadRequest(incoming: seq<Bytes>, codec: Codec): Outcome<Request> {
    var f := Accept(incoming, codec);
    Outcome(match f.result case Err(e) => Err(e) case Ok(forward) => Ok(Finished(forward)), f.incoming)
  }

  /* ----- basic facts about the loops ----- */

  lemma {:induction false} HeadIsInside(raw: Bytes, incoming: seq<Bytes>)
    ensures var r := ReadHead(raw, incoming).result;
            r.Ok? ==> r.value.end <= |r.value.raw| && ParseHead(r.value.raw) == Parsed(r.value.end, r.value.head)
    decreases |incoming|
  {
    hide ParseHead;
    if ParseHead(raw).Partial? && incoming != [] {
      HeadIsInside(raw + incoming[0], incoming[1..]);
    }
  }

  lemma {:induction false} ChunkedKeepsHead(raw: Bytes, end: nat, limits: Limits, incoming: seq<Bytes>)
    requires end <= |raw| && ReadChunked(raw, end, limits, incoming).result.Ok?
    ensures var r := ReadChunked(raw, end, limits, incoming).result.value;
            end <= |r.raw| && r.raw[..end] == raw[..end]
    decreases |incoming|
  {
    match Chunked.Decoded(raw[end..], limits.body) {
      case Complete(consumed, body) => Chunked.CompleteIsTight(raw[end..], limits.body, 0);
      case Invalid(_) =>
      case Overflow =>
      case NeedMore =>
        ChunkedKeepsHead(raw + incoming[0], end, limits, incoming[1..]);
        assert (raw + incoming[0])[..end] == raw[..end];
    }
  }

  lemma {:induction false} SizedKeepsHead(raw: Bytes, end: nat, bodyEnd: nat, incoming: seq<Bytes>)
    requires end <= |raw| && end <= bodyEnd && ReadSized(raw, end, bodyEnd, incoming).result.Ok?
    ensures var r := ReadSized(raw, end, bodyEnd, incoming).result.value;
            && |r.raw| == bodyEnd && r.raw[..end] == raw[..end] && r.body == r.raw[end..]
    decreases |incoming|
  {
    if |raw| < bodyEnd {
      SizedKeepsHead(raw + incoming[0], end, bodyEnd, incoming[1..]);
      assert (raw + incoming[0])[..end] == raw[..end];
    }
  }

  lemma BodyKeepsHead(raw: Bytes, end: nat, framing: Framing, limits: Limits, incoming: seq<Bytes>)
    requires end <= |raw| && ReadBody(raw, end, framing, limits, incoming).result.Ok?
    ensures var r := ReadBody(raw, end, framing, limits, incoming).result.value;
            end <= |r.raw| && r.raw[..end] == raw[..end]
  {
    if framing.chunked {
      ChunkedKeepsHead(raw, end, limits, incoming);
    } else if framing.contentLength.Some? {
      SizedKeepsHead(raw, end, end + framing.contentLength.value, incoming);
    }
  }

  /* ----- the loops as the program runs them ----- */

  const CONTINUE: Bytes := Utf8.Encode("HTTP/1.1 100 Continue") + CRLF + CRLF

  // The client end of a connection: what it will still deliver, and what was sent to it.
  class Transport {
    var incoming: seq<Bytes>
    var sent: Bytes

    constructor (incoming: seq<Bytes>)
      ensures this.incoming == incoming && sent == []
    {
      this.incoming, sent := incoming, [];
    }

    // One read appended to the buffer; false at the end of the stream.
    method ReadMore(raw: Bytes) returns (ok: bool, longer: Bytes)
      modifies this`incoming
      ensures ok == !Ended(old(incoming))
      ensures !ok ==> longer == raw && incoming == old(incoming)
      ensures ok ==> longer == raw + old(incoming)[0] && incoming == old(incoming)[1..]
    {
      if incoming == [] || incoming[0] == [] {
        return false, raw;
      }
      ok, longer := true, raw + incoming[0];
      incoming := incoming[1..];
    }

    method WriteAll(bytes: Bytes)
      modifies this`sent
      ensures sent == old(sent) + bytes
    {
      sent := sent + bytes;
    }
  }

  // Does the body lack bytes when the head has been read?
  predicate BodyMissing(h: HeadRead, framing: Framing, limits: Limits)
    requires h.end <= |h.raw|
  {
    if framing.chunked then Chunked.Decoded(h.raw[h.end..], limits.body).NeedMore?
    else
      framing.contentLength.Some? && framing.contentLength.value <= limits.body
      && |h.raw| < h.end + framing.contentLength.value
  }

  // The interim response: to a client that expects one, when the body lacks bytes.
  function Interim(h: HeadRead, framing: Framing, limits: Limits): Bytes
    requires h.end <= |h.raw|
  {
    if framing.expects && BodyMissing(h, framing, limits) then CONTINUE else []
  }

  // What a whole call sends.
  function Sent(incoming: seq<Bytes>): Bytes {
    var h := ReadHead([], incoming).result;
    if h.Err? || FramingOf(h.value.head.headers).None? then []
    else
      HeadIsInside([], incoming);
      Interim(h.value, FramingOf(h.value.head.headers).value, BodyLimits(h.value.head.path))
  }

  method ReadUntilHeadersParsed(t: Transport) returns (r: Result<HeadRead, Fault>)
    modifies t`incoming
    ensures Outcome(r, t.incoming) == ReadHead([], old(t.incoming))
  {
    hide ParseHead;
    var raw: Bytes := [];
    while true
      invariant ReadHead(raw, t.incoming) == ReadHead([], old(t.incoming))
      decreases |t.incoming|
    {
      match ParseHead(raw) {
        case Parsed(end, head) => return Ok(HeadRead(raw, end, head));
        case Malformed => return Err(BadHead);
        case Partial =>
          if |raw| >= MAX_HEADER_BYTES {
            return Err(HeadTooLarge);
          }
          var ok, longer := t.ReadMore(raw);
          if !ok {
            return Err(UnexpectedEof);
          }
          raw := longer;
      }
    }
  }

  method FrameHeaders(headers: seq<Header>) returns (r: Option<Framing>)
    ensures r == FramingOf(headers)
  {
    hide Fold;
    var f := UNFRAMED;
    for i := 0 to |headers|
      invariant FoldAll(UNFRAMED, headers) == FoldAll(f, headers[i..])
    {
      assert headers[i..][1..] == headers[i + 1..];
      match Fold(f, headers[i]) {
        case None => return None;
        case Some(next) => f := next;
      }
    }
    r := Some(if f.chunked then f.(contentLength := None) else f);
  }

  // The interim response goes out at most once, before the first further read.
  method ReadChunkedFrom(t: Transport, start: Bytes, end: nat, expects: bool, limits: Limits)
    returns (r: Result<BodyRead, Fault>)
    requires end <= |start|
    modifies t
    ensures Outcome(r, t.incoming) == ReadChunked(start, end, limits, old(t.incoming))
    ensures t.sent == old(t.sent)
                      + if expects && Chunked.Decoded(start[end..], limits.body).NeedMore? then CONTINUE else []
  {
    hide CONTINUE;
    hide Chunked.Decoded;
    var raw := start;
    var sentContinue := false;
    while true
      invariant end <= |raw|
      invariant ReadChunked(raw, end, limits, t.incoming) == ReadChunked(start, end, limits, old(t.incoming))
      invariant sentContinue ==> expects && Chunked.Decoded(start[end..], limits.body).NeedMore?
      invariant t.sent == old(t.sent) + if sentContinue then CONTINUE else []
      invariant !sentContinue && expects ==> raw == start
      decreases |t.incoming|
    {
      var answer := Chunked.TryDecodeChunkedBody(raw[end..], limits.body);
      if answer.Complete? {
        Chunked.CompleteIsTight(raw[end..], limits.body, 0);
        return Ok(BodyRead(raw[..end + answer.consumed], answer.body));
      }
      if answer.Invalid? {
        return Err(BadChunk(answer.fault));
      }
      if answer.Overflow? {
        return Err(ChunkOverflow);
      }
      if !sentContinue && expects {
        t.WriteAll(CONTINUE);
        sentContinue := true;
      }
      var ok, longer := t.ReadMore(raw);
      if !ok {
        return Err(UnexpectedEof);
      }
      raw := longer;
      if |raw| - end > limits.wire {
        return Err(WireTooLarge);
      }
    }
  }

  method ReadSizedFrom(t: Transport, start: Bytes, end: nat, expects: bool, contentLength: nat)
    returns (r: Result<BodyRead, Fault>)
    requires end <= |start|
    modifies t
    ensures Outcome(r, t.incoming) == ReadSized(start, end, end + contentLength, old(t.incoming))
    ensures t.sent == old(t.sent) + if expects && |start| < end + contentLength then CONTINUE else []
  {
    hide CONTINUE;
    var raw := start;
    var bodyEnd := end + contentLength;
    var sentContinue := false;
    while |raw| < bodyEnd
      invariant end <= |raw|
      invariant ReadSized(raw, end, bodyEnd, t.incoming) == ReadSized(start, end, bodyEnd, old(t.incoming))
      invariant sentContinue ==> expects && |start| < bodyEnd
      invariant t.sent == old(t.sent) + if sentContinue then CONTINUE else []
      invariant !sentContinue && expects ==> raw == start
      decreases |t.incoming|
    {
      if !sentContinue && expects && contentLength > 0 {
        t.WriteAll(CONTINUE);
        sentContinue := true;
      }
      var ok, longer := t.ReadMore(raw);
      if !ok {
        return Err(UnexpectedEof);
      }
      raw := longer;
    }
    r := Ok(BodyRead(raw[..bodyEnd], raw[end..bodyEnd]));
  }

  // The loop over the re-parsed headers.
  method KeepHeaders(headers: seq<Header>, stripExpect: bool, rewritten: bool) returns (lines: Bytes)
    ensures lines == HeaderLines(Kept(headers, stripExpect, rewritten))
  {
    hide KindOf;
    hide Readable;
    hide PrintHeader;
    lines := [];
    ghost var kept: seq<Header> := [];
    ghost var all := Kept(headers, stripExpect, rewritten);
    for i := 0 to |headers|
      invariant lines == HeaderLines(kept)
      invariant kept + Kept(headers[i..], stripExpect, rewritten) == all
    {
      assert headers[i..][1..] == headers[i + 1..];
      var h := headers[i];
      if !Dropped(KindOf(h), stripExpect, rewritten) {
        var keep := Readable(h);
        JoinLines(kept, [keep]);
        lines := lines + (PrintHeader(keep) + CRLF);
        kept := kept + [keep];
      }
    }
    assert kept + [] == kept;
  }

  method FinalizeForwardedRequest(raw: Bytes, end: nat, stripExpect: bool, path: string, rewritten: Option<Bytes>)
    returns (forwarded: Bytes)
    requires end <= |raw| && ParseHead(raw[..end]).Parsed?
    ensures var head := ForwardedHead(ParseHead(raw[..end]).head, stripExpect, path, rewritten);
            forwarded == PrintHead(head) + rewritten.GetOr(raw[end..])
  {
    hide PrintHeader;
    hide LengthHeader;
    hide CLOSE;
    hide ParseHead;
    hide Kept;
    var head := ParseHead(raw[..end]).head;
    var lines := KeepHeaders(head.headers, stripExpect, rewritten.Some?);
    ghost var all := Kept(head.headers, stripExpect, rewritten.Some?);
    if rewritten.Some? {
      JoinLines(all, [LengthHeader(|rewritten.value|)]);
      lines := lines + (PrintHeader(LengthHeader(|rewritten.value|)) + CRLF);
      all := all + [LengthHeader(|rewritten.value|)];
    } else {
      assert all + [] == all;
    }
    JoinLines(all, [CLOSE]);
    LinesThenBlank(all + [CLOSE]);
    lines := lines + (PrintHeader(CLOSE) + CRLF) + CRLF;
    assert ForwardedHead(head, stripExpect, path, rewritten).headers == all + [CLOSE];
    forwarded := Utf8.Encode(RequestText(head.verb, path, head.version)) + CRLF + lines + rewritten.GetOr(raw[end..]);
  }

  function HeaderLines(headers: seq<Header>): Bytes {
    if headers == [] then [] else PrintHeader(headers[0]) + CRLF + HeaderLines(headers[1..])
  }

  lemma {:induction false} JoinLines(a: seq<Header>, b: seq<Header>)
    ensures HeaderLines(a + b) == HeaderLines(a) + HeaderLines(b)
    ensures |b| == 1 ==> HeaderLines(b) == PrintHeader(b[0]) + CRLF
  {
    hide PrintHeader;
    if a == [] {
      assert a + b == b;
    } else {
      assert (a + b)[1..] == a[1..] + b;
      JoinLines(a[1..], b);
    }
  }

  lemma {:induction false} LinesThenBlank(headers: seq<Header>)
    ensures PrintHeaders(headers) == HeaderLines(headers) + CRLF
  {
    hide PrintHeader;
    if headers != [] {
      LinesThenBlank(headers[1..]);
    }
  }

  method ReadBodyFrom(t: Transport, h: HeadRead, framing: Framing, limits: Limits)
    returns (r: Result<BodyRead, Fault>)
    requires h.end <= |h.raw|
    modifies t
    ensures Outcome(r, t.incoming) == ReadBody(h.raw, h.end, framing, limits, old(t.incoming))
    ensures t.sent == old(t.sent) + Interim(h, framing, limits)
  {
    hide CONTINUE;
    if framing.chunked {
      r := ReadChunkedFrom(t, h.raw, h.end, framing.expects, limits);
    } else if framing.contentLength.Some? {
      if framing.contentLength.value > limits.body {
        return Err(BodyTooLarge);
      }
      r := ReadSizedFrom(t, h.raw, h.end, framing.expects, framing.contentLength.value);
    } else {
      r := Ok(BodyRead(h.raw[..h.end], []));
    }
  }

  method RebuildRequest(h: HeadRead, expects: bool, read: BodyRead, codec: Codec) returns (r: Result<Request, Fault>)
    requires h.end <= |read.raw| && ParseHead(read.raw[..h.end]).Parsed?
    ensures ParseHead(read.raw[..h.end]) == Parsed(h.end, h.head) ==>
              r == match Rebuild(h.head, h.end, expects, read, codec)
                   case Err(e) => Err(e)
                   case Ok(f) => Ok(Finished(f))
  {
    hide Normalize.Normalize;
    hide ParseHead;
    hide PrintHead;
    hide Kept;
    hide LengthHeader;
    hide CLOSE;
    var json := if read.body == [] then None else codec.parse(read.body);
    var path, adapter := h.head.path, Normalize.NoAdapter;
    var rewritten: Option<Bytes> := None;
    if json.Some? {
      var normalized := Normalize.NormalizeInPlace(h.head.path, json.value);
      if normalized.Err? {
        return Err(Untranslatable(normalized.error));
      }
      var n := normalized.value;
      json, path, adapter := Some(n.body), n.path, n.adapter;
      if n.changed {
        rewritten := Some(codec.render(n.body));
      }
    }
    var forwarded := FinalizeForwardedRequest(read.raw, h.end, expects, path, rewritten);
    var model := if json.Some? then json.value.GetStr("model") else None;
    var session := if json.Some? then json.value.GetStr("user").Or(json.value.GetStr("session_id")) else None;
    r := Ok(Request(forwarded, h.head.verb, path, json, model, session, adapter));
  }

  method ReadHttpRequest(t: Transport, codec: Codec) returns (r: Result<Request, Fault>)
    modifies t
    ensures Outcome(r, t.incoming) == ReadRequest(old(t.incoming), codec)
    ensures t.sent == old(t.sent) + Sent(old(t.incoming))
  {
    hide FramingOf;
    hide BodyLimits;
    hide ParseHead;
    hide Rebuild;
    hide ReadBody;
    hide CONTINUE;
    hide Finished;
    hide Interim;
    var start := ReadUntilHeadersParsed(t);
    if start.Err? {
      return Err(start.error);
    }
    HeadIsInside([], old(t.incoming));
    var h := start.value;
    var framed := FrameHeaders(h.head.headers);
    if framed.None? {
      return Err(BadContentLength);
    }
    ghost var rest := t.incoming;
    var got := ReadBodyFrom(t, h, framed.value, BodyLimits(h.head.path));
    if got.Err? {
      return Err(got.error);
    }
    BodyKeepsHead(h.raw, h.end, framed.value, BodyLimits(h.head.path), rest);
    HeadLocal(h.raw, h.end);
    r := RebuildRequest(h, framed.value.expects, got.value, codec);
  }
}
