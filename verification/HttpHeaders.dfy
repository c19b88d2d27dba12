/** What the lines of a head mean, one by one, and what becomes of them in the forwarded request. */
module HttpHeaders {
  import opened Results
  import opened Wire
  import opened Text
  import opened HttpHead
  import opened HttpRead
  import opened Json
  import Utf8
  import Chunked
  import Normalize

  /* ----- lines ----- */

  predicate Blanks(v: Bytes) {
    forall i :: 0 <= i < |v| ==> v[i] == 32 || v[i] == 9
  }

  lemma {:induction false} SkipIs(before: Bytes, v: Bytes)
    requires Blanks(before) && (v != [] ==> !IsBlank(v[0]))
    ensures SkipBlanks(before + v) == v
    decreases |before|
  {
    if before == [] {
      assert before + v == v;
    } else {
      assert (before + v)[1..] == before[1..] + v;
      SkipIs(before[1..], v);
    }
  }

  lemma {:induction false} DropIs(v: Bytes, after: Bytes)
    requires Blanks(after) && (v != [] ==> !IsBlank(v[|v| - 1]))
    ensures DropBlanks(v + after) == v
    decreases |after|
  {
    if after == [] {
      assert v + after == v;
    } else {
      assert (v + after)[..|v + after| - 1] == v + after[..|after| - 1];
      DropIs(v, after[..|after| - 1]);
    }
  }

  // Blanks go from both ends, and only they.
  lemma {:induction false} BlanksAround(v: Bytes) returns (before: Bytes, after: Bytes)
    ensures Blanks(before) && Blanks(after) && v == before + DropBlanks(SkipBlanks(v)) + after
    decreases |v|
  {
    if v != [] && IsBlank(v[0]) {
      var b, a := BlanksAround(v[1..]);
      before, after := [v[0]] + b, a;
    } else {
      after := BlanksBehind(v);
      before := [];
      assert SkipBlanks(v) == v;
      assert [] + DropBlanks(v) + after == DropBlanks(v) + after;
    }
  }

  lemma {:induction false} BlanksBehind(v: Bytes) returns (after: Bytes)
    ensures Blanks(after) && v == DropBlanks(v) + after
    decreases |v|
  {
    if v != [] && IsBlank(v[|v| - 1]) {
      var a := BlanksBehind(v[..|v| - 1]);
      after := a + [v[|v| - 1]];
      assert v == v[..|v| - 1] + [v[|v| - 1]];
    } else {
      after := [];
      assert v + [] == v;
    }
  }

  // A header line: a name, a colon, and a value with blanks around it.
  ghost predicate IsHeaderLine(line: Bytes, h: Header) {
    WellFormedHeader(h)
    && exists before, after :: Blanks(before) && Blanks(after) && line == LineOf(h, before, after)
  }

  function LineOf(h: Header, before: Bytes, after: Bytes): Bytes {
    Utf8.Encode(h.name) + [COLON] + (before + h.value + after)
  }

  lemma HeaderLineIs(line: Bytes, h: Header)
    ensures HeaderLine(line) == Some(h) <==> IsHeaderLine(line, h)
  {
    if HeaderLine(line) == Some(h) {
      LineRead(line, h);
    }
    if IsHeaderLine(line, h) {
      var before, after :| Blanks(before) && Blanks(after) && line == LineOf(h, before, after);
      LineReads(h, before, after);
    }
  }

  lemma LineRead(line: Bytes, h: Header)
    requires HeaderLine(line) == Some(h)
    ensures IsHeaderLine(line, h)
  {
    hide Utf8.Encode;
    hide Utf8.Decode;
    hide FirstMatch;
    hide SkipBlanks;
    hide DropBlanks;
    hide WellFormedHeader;
    var colon := FirstMatch(line, [COLON], 0).value;
    assert line[colon..colon + 1] == [COLON];
    Utf8.DecodeIsStrict(line[..colon]);
    var before, after := BlanksAround(line[colon + 1..]);
    assert line == line[..colon] + line[colon..colon + 1] + line[colon + 1..];
    assert line == LineOf(h, before, after);
  }

  lemma LineReads(h: Header, before: Bytes, after: Bytes)
    requires WellFormedHeader(h) && Blanks(before) && Blanks(after)
    ensures HeaderLine(LineOf(h, before, after)) == Some(h)
  {
    hide Utf8.Encode;
    hide Utf8.Decode;
    var name, tail := Utf8.Encode(h.name), before + h.value + after;
    var line := LineOf(h, before, after);
    NameHasNoColon(h.name);
    forall i | 0 <= i < |name|
      ensures !OccursAt(line, [COLON], i)
    {
      assert line[i..i + 1][0] == name[i];
    }
    assert line[|name|..|name| + 1] == [COLON];
    FirstMatchIs(line, [COLON], 0, |name|);
    assert line[..|name|] == name && line[|name| + 1..] == tail;
    Utf8.RoundTrip(h.name);
    ValueAlone(before, h.value, after);
  }

  lemma NameHasNoColon(name: string)
    requires IsName(name)
    ensures COLON !in Utf8.Encode(name)
  {
    Utf8.EncodeAscii(name);
    var bytes := Utf8.Encode(name);
    forall i | 0 <= i < |bytes|
      ensures bytes[i] != COLON
    {
      assert name[i] in name;
    }
  }

  lemma ValueAlone(before: Bytes, value: Bytes, after: Bytes)
    requires Blanks(before) && Blanks(after) && NoOuterBlanks(value)
    ensures DropBlanks(SkipBlanks(before + value + after)) == value
  {
    if value == [] {
      assert before + value + after == (before + after) + [];
      SkipIs(before + after, []);
    } else {
      assert before + value + after == before + (value + after);
      SkipIs(before, value + after);
      DropIs(value, after);
    }
  }

  // A request line: exactly what is printed for a method, a path and one of two versions.
  lemma RequestLineIs(line: Bytes, r: StartLine)
    ensures RequestLine(line) == Some(r) <==>
            && IsToken(r.verb) && IsPath(r.path) && (r.version == "0" || r.version == "1")
            && line == Utf8.Encode(r.verb + " " + r.path + " HTTP/1." + r.version)
  {
    hide Utf8.Encode;
    hide Utf8.Decode;
    hide IsToken;
    hide IsPath;
    var text := r.verb + " " + r.path + " HTTP/1." + r.version;
    if RequestLine(line) == Some(r) {
      Utf8.DecodeIsStrict(line);
      RequestRead(Utf8.Decode(line).value, r);
    }
    if IsToken(r.verb) && IsPath(r.path) && (r.version == "0" || r.version == "1") && line == Utf8.Encode(text) {
      Utf8.RoundTrip(text);
      RequestReads(r);
    }
  }

  lemma RequestParts(verb: string, path: string, version: string)
    ensures verb + [' '] + (path + [' '] + ("HTTP/1." + version)) == verb + " " + path + " HTTP/1." + version
  {
    assert " HTTP/1." == [' '] + "HTTP/1.";
    assert path + [' '] + ("HTTP/1." + version) == path + " HTTP/1." + version;
  }

  lemma RequestRead(text: string, r: StartLine)
    requires RequestOf(text) == Some(r)
    ensures text == r.verb + " " + r.path + " HTTP/1." + r.version
  {
    hide IsToken;
    hide IsPath;
    hide IndexOf;
    var i := IndexOf(text, ' ');
    var rest := text[i + 1..];
    var j := IndexOf(rest, ' ');
    var tail := rest[j + 1..];
    assert tail == "HTTP/1." + r.version;
    assert rest == r.path + [' '] + tail;
    assert text == r.verb + [' '] + rest;
    RequestParts(r.verb, r.path, r.version);
  }

  lemma RequestReads(r: StartLine)
    requires IsToken(r.verb) && IsPath(r.path) && (r.version == "0" || r.version == "1")
    ensures RequestOf(r.verb + " " + r.path + " HTTP/1." + r.version) == Some(r)
  {
    assert ' ' !in r.verb && ' ' !in r.path;
    hide IsToken;
    hide IsPath;
    hide IndexOf;
    var tail := "HTTP/1." + r.version;
    var text := r.verb + " " + r.path + " HTTP/1." + r.version;
    RequestParts(r.verb, r.path, r.version);
    CutAt(r.verb, ' ', r.path + [' '] + tail);
    CutAt(r.path, ' ', tail);
    assert tail == if r.version == "0" then "HTTP/1.0" else "HTTP/1.1";
    assert tail[7..] == r.version;
  }

  // Which characters a method or a name, a path and a value may have: the visible ones of ASCII;
  // all but control characters and the blank; all but control characters.
  lemma KnownCharacters(c: char, b: Byte)
    ensures IsToken([c]) <==> 33 <= c as int <= 126
    ensures IsPath([c]) <==> c as int >= 33 && c as int != 127
    ensures IsValue([b]) <==> b == 9 || 32 <= b <= 126 || b >= 128
  {
    assert [c][0] in [c] && [b][0] in [b];
  }

  /* ----- what the headers say ----- */

  predicate Named(h: Header, name: string) {
    SameIgnoringCase(h.name, name)
  }

  lemma SmallNames()
    ensures Lower("content-length") == "content-length" && Lower("transfer-encoding") == "transfer-encoding"
    ensures Lower("expect") == "expect" && Lower("connection") == "connection"
  {}

  // A part of the comma-separated value, without white space around it, is the word in any case.
  predicate Lists(h: Header, word: string) {
    exists part :: part in Split(ValueText(h.value), ',') && SameIgnoringCase(Trim(part), word)
  }

  lemma ListsIs(h: Header, word: string)
    ensures ListHas(Split(ValueText(h.value), ','), word) <==> Lists(h, word)
  {
    hide Trim;
    hide SameIgnoringCase;
    var parts := Split(ValueText(h.value), ',');
    if part :| part in parts && SameIgnoringCase(Trim(part), word) {
      var i :| 0 <= i < |parts| && parts[i] == part;
    }
  }

  // One header more: each of three replaces what an earlier one of its name said, and an
  // unreadable length refuses the request.
  lemma HeaderSays(f: Framing, h: Header)
    ensures Named(h, "content-length") ==>
              var n := ParseUnsigned(Trim(ValueText(h.value)), 10, 0x1_0000_0000_0000_0000);
              Fold(f, h) == if n.None? then None else Some(f.(contentLength := n))
    ensures Named(h, "transfer-encoding") ==> Fold(f, h) == Some(f.(chunked := Lists(h, "chunked")))
    ensures Named(h, "expect") ==> Fold(f, h) == Some(f.(expects := Lists(h, "100-continue")))
    ensures !Named(h, "content-length") && !Named(h, "transfer-encoding") && !Named(h, "expect") ==>
              Fold(f, h) == Some(f)
  {
    hide Trim;
    hide ParseUnsigned;
    hide ListHas;
    hide Lists;
    hide Split;
    hide ValueText;
    ListsIs(h, "chunked");
    ListsIs(h, "100-continue");
    SmallNames();
    assert |"content-length"| == 14 && |"transfer-encoding"| == 17 && |"expect"| == 6 && |"connection"| == 10;
  }

  lemma {:induction false} FoldMore(f: Framing, headers: seq<Header>, h: Header)
    ensures FoldAll(f, headers + [h])
         == if FoldAll(f, headers).None? then None else Fold(FoldAll(f, headers).value, h)
    decreases |headers|
  {
    hide Fold;
    if headers == [] {
      assert headers + [h] == [h] && [h][1..] == [];
      assert Fold(f, h).Some? ==> FoldAll(Fold(f, h).value, []) == Fold(f, h);
    } else {
      assert (headers + [h])[1..] == headers[1..] + [h];
      if Fold(f, headers[0]).Some? {
        FoldMore(Fold(f, headers[0]).value, headers[1..], h);
      }
    }
  }

  // A chunked body has no other length; without headers there is no body and nothing expected.
  lemma FramingIs(headers: seq<Header>)
    ensures FoldAll(Framing(None, false, false), []) == Some(Framing(None, false, false))
    ensures FramingOf(headers)
         == var f := FoldAll(Framing(None, false, false), headers);
            if f.None? then None
            else if f.value.chunked then Some(Framing(None, true, f.value.expects)) else f
  {}

  /* ----- what is forwarded ----- */

  // Header by header, in order.
  lemma {:induction false} KeptInOrder(a: seq<Header>, b: seq<Header>, stripExpect: bool, rewritten: bool)
    ensures Kept(a + b, stripExpect, rewritten)
         == Kept(a, stripExpect, rewritten) + Kept(b, stripExpect, rewritten)
    decreases |a|
  {
    hide Dropped;
    hide Readable;
    if a == [] {
      assert a + b == b;
    } else {
      assert (a + b)[1..] == a[1..] + b;
      KeptInOrder(a[1..], b, stripExpect, rewritten);
    }
  }

  // Dropped are the connection header, an expectation that has been met, and the framing of a
  // body that is replaced. A value that is no text is forwarded as an empty one.
  lemma KeptIs(h: Header, stripExpect: bool, rewritten: bool)
    ensures Kept([h], stripExpect, rewritten)
         == if Named(h, "connection") || (stripExpect && Named(h, "expect"))
               || (rewritten && (Named(h, "content-length") || Named(h, "transfer-encoding")))
            then [] else [Header(h.name, if Utf8.Decode(h.value).Some? then h.value else [])]
  {
    hide Utf8.Decode;
    SmallNames();
    assert |"content-length"| == 14 && |"transfer-encoding"| == 17 && |"expect"| == 6 && |"connection"| == 10;
    assert [h][1..] == [] && Kept([], stripExpect, rewritten) == [];
  }

  // The forwarded head: the method and version as they were, the path given, the headers kept, the
  // length of a new body, and that the connection closes.
  lemma ForwardedHeadIs(head: Head, stripExpect: bool, path: string, rewritten: Option<Bytes>)
    ensures var f := ForwardedHead(head, stripExpect, path, rewritten);
            && f.verb == head.verb && f.version == head.version && f.path == path
            && var kept := Kept(head.headers, stripExpect, rewritten.Some?);
               var n := |kept| + if rewritten.Some? then 1 else 0;
               && |f.headers| == n + 1 && f.headers[..|kept|] == kept
               && (rewritten.Some? ==>
                     f.headers[|kept|] == Header("Content-Length", Utf8.Encode(Decimal(|rewritten.value|))))
               && f.headers[n].name == "Connection" && f.headers[n].value == [0x63, 0x6c, 0x6f, 0x73, 0x65]
  {
    hide Kept;
    hide Decimal;
    var f := ForwardedHead(head, stripExpect, path, rewritten);
    var kept := Kept(head.headers, stripExpect, rewritten.Some?);
    assert f.headers[..|kept|] == kept;
    Utf8.EncodeAscii("close");
  }

  // The model is the text under `model`; the session is the text under `user` or, without one,
  // under `session_id`. A body that is not JSON has neither.
  lemma RequestNames(f: Forward)
    ensures var r := Finished(f);
            && r.verb == f.head.verb && r.path == f.head.path && r.json == f.json && r.adapter == f.adapter
            && r.raw == PrintHead(f.head) + f.body
            && (f.json.None? || !f.json.value.Object? ==> r.modelName == None && r.sessionHint == None)
            && (f.json.Some? && f.json.value.Object? ==>
                  var fields := f.json.value.fields;
                  && r.modelName == TextUnder(fields, "model")
                  && r.sessionHint == if TextUnder(fields, "user").Some? then TextUnder(fields, "user")
                                      else TextUnder(fields, "session_id"))
  {
    hide PrintHead;
  }

  function TextUnder(fields: Fields, key: string): Option<string> {
    if key in fields && fields[key].String? then Some(fields[key].s) else None
  }

  // The interim response goes to a client that expects one, exactly when the body cannot be read
  // without another read.
  lemma InterimExactly(h: HeadRead, framing: Framing, limits: Limits)
    requires h.end <= |h.raw|
    ensures Interim(h, framing, limits)
         == if framing.expects && ReadBody(h.raw, h.end, framing, limits, []).result == Err(UnexpectedEof)
            then CONTINUE else []
  {
    hide CONTINUE;
    hide Chunked.Decoded;
  }

  /* ----- limits ----- */

  lemma KnownLimits()
    ensures MAX_HEADERS == 64 && MAX_HEADER_BYTES == 65_536 && READ_SIZE == 8_192
    ensures MAX_BODY_BYTES == 8_388_608 && MAX_OBJECT_UPLOAD_BODY_BYTES == 67_108_864
    ensures forall n: nat :: WireLimit(n) == 6 * n + 65_536
  {}

  lemma TwoLineEnds(ends: string)
    requires ends == "\r\n\r\n"
    ensures Utf8.Encode(ends) == CRLF + CRLF
  {
    Utf8.EncodeAscii(ends);
  }

  lemma LineEnded(line: string, ends: string)
    requires ends == "\r\n\r\n"
    ensures Utf8.Encode(line + ends) == Utf8.Encode(line) + CRLF + CRLF
  {
    hide Utf8.Encode;
    Utf8.EncodeAppend(line, ends);
    TwoLineEnds(ends);
  }

  // The interim response, to the letter.
  lemma KnownContinue()
    ensures CONTINUE == Utf8.Encode("HTTP/1.1 100 Continue" + "\r\n\r\n")
  {
    hide Utf8.Encode;
    LineEnded("HTTP/1.1 100 Continue", "\r\n\r\n");
  }

  // Uploads of objects have the larger limit, with a query or without.
  lemma LimitsAre(path: string, query: string)
    requires '?' !in path
    ensures var limit := if path == "/api/objects" then 67_108_864 else 8_388_608;
            BodyLimits(path).body == limit && BodyLimits(path + "?" + query).body == limit
  {
    hide IndexOf;
    assert path[..|path|] == path;
    IndexOfIs(path, '?', |path|);
    CutAt(path, '?', query);
    assert path + "?" + query == path + ['?'] + query;
  }
}
