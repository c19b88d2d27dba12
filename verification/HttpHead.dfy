/**
 Request heads: a small grammar in place of `httparse`. The request line and every header
 line end in CRLF, an empty line ends the head, and at most 64 headers are accepted.
 */
module HttpHead {
  import opened Results
  import opened Wire
  import opened Text
  import Utf8

  const MAX_HEADERS: nat := 64
  const SP: Byte := 32
  const TAB: Byte := 9
  const COLON: Byte := 58

  datatype Header = Header(name: string, value: Bytes)
  datatype Head = Head(verb: string, path: string, version: string, headers: seq<Header>)
  datatype Parse = Partial | Parsed(end: nat, head: Head) | Malformed

  predicate IsToken(s: string) {
    s != [] && forall c :: c in s ==> '!' <= c <= '~'
  }

  predicate IsPath(s: string) {
    s != [] && forall c :: c in s ==> c > ' ' && c as int != 127
  }

  predicate IsName(s: string) {
    IsToken(s) && ':' !in s
  }

  predicate IsValue(v: Bytes) {
    forall b :: b in v ==> b == TAB || (b >= 32 && b != 127)
  }

  predicate IsBlank(b: Byte) {
    b == SP || b == TAB
  }

  predicate NoOuterBlanks(v: Bytes) {
    v != [] ==> !IsBlank(v[0]) && !IsBlank(v[|v| - 1])
  }

  predicate WellFormedHeader(h: Header) {
    IsName(h.name) && IsValue(h.value) && NoOuterBlanks(h.value)
  }

  predicate IsVersion(s: string) {
    s == "0" || s == "1"
  }

  predicate WellFormed(h: Head) {
    && IsToken(h.verb) && IsPath(h.path) && IsVersion(h.version)
    && |h.headers| <= MAX_HEADERS
    && forall i :: 0 <= i < |h.headers| ==> WellFormedHeader(h.headers[i])
  }

  /* ----- parsing ----- */

  function SkipBlanks(v: Bytes): (r: Bytes)
    ensures forall b :: b in r ==> b in v
  {
    if v != [] && IsBlank(v[0]) then SkipBlanks(v[1..]) else v
  }

  function DropBlanks(v: Bytes): (r: Bytes)
    ensures r <= v
    ensures r != [] ==> !IsBlank(r[|r| - 1])
  {
    if v != [] && IsBlank(v[|v| - 1]) then DropBlanks(v[..|v| - 1]) else v
  }

  function HeaderLine(line: Bytes): (r: Option<Header>)
    ensures r.Some? ==> WellFormedHeader(r.value)
  {
    match FirstMatch(line, [COLON], 0)
    case None => None
    case Some(colon) =>
      var value := DropBlanks(SkipBlanks(line[colon + 1..]));
      SkipBlanksStart(line[colon + 1..]);
      match Utf8.Decode(line[..colon])
      case None => None
      case Some(name) => if IsName(name) && IsValue(value) then Some(Header(name, value)) else None
  }

  lemma SkipBlanksStart(v: Bytes)
    ensures SkipBlanks(v) != [] ==> !IsBlank(SkipBlanks(v)[0])
  {}

  datatype StartLine = StartLine(verb: string, path: string, version: string)

  function RequestOf(text: string): (r: Option<StartLine>)
    ensures r.Some? ==> IsToken(r.value.verb) && IsPath(r.value.path) && IsVersion(r.value.version)
  {
    var i := IndexOf(text, ' ');
    if i == |text| then None
    else
      var rest := text[i + 1..];
      var j := IndexOf(rest, ' ');
      if j == |rest| then None
      else
        var tail := rest[j + 1..];
        if IsToken(text[..i]) && IsPath(rest[..j]) && (tail == "HTTP/1.0" || tail == "HTTP/1.1")
        then Some(StartLine(text[..i], rest[..j], tail[7..]))
        else None
  }

  function RequestLine(line: Bytes): (r: Option<StartLine>)
    ensures r.Some? ==> IsToken(r.value.verb) && IsPath(r.value.path) && IsVersion(r.value.version)
  {
    match Utf8.Decode(line)
    case None => None
    case Some(text) => RequestOf(text)
  }

  function ParseHeaders(buf: Bytes, pos: nat, request: StartLine, headers: seq<Header>): (r: Parse)
    requires pos <= |buf|
    ensures r.Parsed? ==> pos < r.end <= |buf|
    decreases |buf| - pos
  {
    match FirstMatch(buf, CRLF, pos)
    case None => Partial
    case Some(lineEnd) =>
      if lineEnd == pos then Parsed(pos + 2, Head(request.verb, request.path, request.version, headers))
      else if |headers| >= MAX_HEADERS then Malformed
      else
        match HeaderLine(buf[pos..lineEnd])
        case None => Malformed
        case Some(h) => ParseHeaders(buf, lineEnd + 2, request, headers + [h])
  }

  function ParseHead(buf: Bytes): (r: Parse)
    ensures r.Parsed? ==> 0 < r.end <= |buf|
  {
    match FirstMatch(buf, CRLF, 0)
    case None => Partial
    case Some(lineEnd) =>
      match RequestLine(buf[..lineEnd])
      case None => Malformed
      case Some(request) => ParseHeaders(buf, lineEnd + 2, request, [])
  }

  /* ----- printing ----- */

  function RequestText(verb: string, path: string, version: string): string {
    verb + " " + path + " HTTP/1." + version
  }

  function PrintRequest(h: Head): Bytes {
    Utf8.Encode(RequestText(h.verb, h.path, h.version))
  }

  function PrintHeader(h: Header): Bytes {
    Utf8.Encode(h.name) + [COLON, SP] + h.value
  }

  function PrintHeaders(headers: seq<Header>): Bytes {
    if headers == [] then CRLF
    else PrintHeader(headers[0]) + CRLF + PrintHeaders(headers[1..])
  }

  function PrintHead(h: Head): Bytes {
    PrintRequest(h) + CRLF + PrintHeaders(h.headers)
  }

  /* ----- an answer is final, and looks at nothing behind the head ----- */

  lemma {:induction false} HeadersStable(buf: Bytes, more: Bytes, pos: nat, request: StartLine, headers: seq<Header>)
    requires pos <= |buf| && !ParseHeaders(buf, pos, request, headers).Partial?
    ensures ParseHeaders(buf + more, pos, request, headers) == ParseHeaders(buf, pos, request, headers)
    decreases |buf| - pos
  {
    hide HeaderLine;
    hide FirstMatch;
    FirstMatchStable(buf, more, CRLF, pos);
    var lineEnd := FirstMatch(buf, CRLF, pos).value;
    assert (buf + more)[pos..lineEnd] == buf[pos..lineEnd];
    var h := HeaderLine(buf[pos..lineEnd]);
    if lineEnd != pos && |headers| < MAX_HEADERS && h.Some? {
      HeadersStable(buf, more, lineEnd + 2, request, headers + [h.value]);
    }
  }

  lemma HeadStable(buf: Bytes, more: Bytes)
    requires !ParseHead(buf).Partial?
    ensures ParseHead(buf + more) == ParseHead(buf)
  {
    hide RequestLine;
    hide FirstMatch;
    hide ParseHeaders;
    FirstMatchStable(buf, more, CRLF, 0);
    var lineEnd := FirstMatch(buf, CRLF, 0).value;
    assert (buf + more)[..lineEnd] == buf[..lineEnd];
    var request := RequestLine(buf[..lineEnd]);
    if request.Some? {
      HeadersStable(buf, more, lineEnd + 2, request.value, []);
    }
  }

  lemma {:induction false} HeadersLocal(buf: Bytes, end: nat, pos: nat, request: StartLine, headers: seq<Header>)
    requires pos <= |buf| && ParseHeaders(buf, pos, request, headers).Parsed?
    requires ParseHeaders(buf, pos, request, headers).end <= end <= |buf|
    ensures ParseHeaders(buf[..end], pos, request, headers) == ParseHeaders(buf, pos, request, headers)
    decreases |buf| - pos
  {
    hide HeaderLine;
    hide FirstMatch;
    var lineEnd := FirstMatch(buf, CRLF, pos).value;
    FirstMatchLocal(buf, CRLF, pos, end);
    assert buf[..end][pos..lineEnd] == buf[pos..lineEnd];
    if lineEnd != pos {
      HeadersLocal(buf, end, lineEnd + 2, request, headers + [HeaderLine(buf[pos..lineEnd]).value]);
    }
  }

  lemma HeadLocal(buf: Bytes, end: nat)
    requires ParseHead(buf).Parsed? && ParseHead(buf).end <= end <= |buf|
    ensures ParseHead(buf[..end]) == ParseHead(buf)
  {
    hide RequestLine;
    hide FirstMatch;
    hide ParseHeaders;
    var lineEnd := FirstMatch(buf, CRLF, 0).value;
    FirstMatchLocal(buf, CRLF, 0, end);
    assert buf[..end][..lineEnd] == buf[..lineEnd];
    HeadersLocal(buf, end, lineEnd + 2, RequestLine(buf[..lineEnd]).value, []);
  }

  // A buffer that stops before the end of the head is undecided.
  lemma HeadPrefixPartial(buf: Bytes, cut: nat)
    requires ParseHead(buf).Parsed? && cut < ParseHead(buf).end
    ensures ParseHead(buf[..cut]) == Partial
  {
    hide ParseHead;
    if ParseHead(buf[..cut]) != Partial {
      assert buf == buf[..cut] + buf[cut..];
      HeadStable(buf[..cut], buf[cut..]);
      assert false;
    }
  }

  /* ----- what is parsed is well formed, and what is printed parses back ----- */

  lemma {:induction false} HeadersWellFormed(buf: Bytes, pos: nat, request: StartLine, headers: seq<Header>)
    requires pos <= |buf| && ParseHeaders(buf, pos, request, headers).Parsed?
    requires IsToken(request.verb) && IsPath(request.path) && IsVersion(request.version)
    requires |headers| <= MAX_HEADERS && forall i :: 0 <= i < |headers| ==> WellFormedHeader(headers[i])
    ensures WellFormed(ParseHeaders(buf, pos, request, headers).head)
    decreases |buf| - pos
  {
    hide HeaderLine;
    hide WellFormedHeader;
    var lineEnd := FirstMatch(buf, CRLF, pos).value;
    if lineEnd != pos {
      HeadersWellFormed(buf, lineEnd + 2, request, headers + [HeaderLine(buf[pos..lineEnd]).value]);
    }
  }

  lemma ParsedIsWellFormed(buf: Bytes)
    requires ParseHead(buf).Parsed?
    ensures WellFormed(ParseHead(buf).head)
  {
    hide RequestLine;
    var lineEnd := FirstMatch(buf, CRLF, 0).value;
    HeadersWellFormed(buf, lineEnd + 2, RequestLine(buf[..lineEnd]).value, []);
  }

  // Text without control characters is printed without LF.
  lemma PrintedTextHasNoLf(s: string)
    requires forall c :: c in s ==> c >= ' '
    ensures LF !in Utf8.Encode(s)
  {
    var e := Utf8.Encode(s);
    forall k | 0 <= k < |s| ensures s[k] as int != LF {
      assert s[k] in s;
    }
    forall i | 0 <= i < |e| ensures e[i] != LF {
      if e[i] == LF {
        Utf8.EncodedByte(s, i);
        assert false;
      }
    }
  }

  lemma RequestTextParses(verb: string, path: string, version: string)
    requires IsToken(verb) && IsPath(path) && IsVersion(version)
    ensures RequestOf(RequestText(verb, path, version)) == Some(StartLine(verb, path, version))
  {
    hide IndexOf;
    hide IsToken;
    hide IsPath;
    var tail := "HTTP/1." + version;
    var rest := path + [' '] + tail;
    assert RequestText(verb, path, version) == verb + [' '] + rest;
    assert ' ' !in verb && ' ' !in path by {
      NoSpaces(verb, path);
    }
    CutAt(verb, ' ', rest);
    CutAt(path, ' ', tail);
    assert tail[7..] == version;
    assert tail == "HTTP/1.0" || tail == "HTTP/1.1";
  }

  lemma NoSpaces(verb: string, path: string)
    requires IsToken(verb) && IsPath(path)
    ensures ' ' !in verb && ' ' !in path
    ensures forall c :: c in verb || c in path ==> c > ' '
  {}

  lemma PrintedRequestParses(h: Head)
    requires IsToken(h.verb) && IsPath(h.path) && IsVersion(h.version)
    ensures RequestLine(PrintRequest(h)) == Some(StartLine(h.verb, h.path, h.version))
    ensures LF !in PrintRequest(h)
  {
    hide RequestOf;
    hide Utf8.Encode;
    hide Utf8.Decode;
    NoSpaces(h.verb, h.path);
    hide IsToken;
    hide IsPath;
    var text := RequestText(h.verb, h.path, h.version);
    RequestTextParses(h.verb, h.path, h.version);
    Utf8.RoundTrip(text);
    PrintedTextHasNoLf(text);
  }

  lemma SkipsOneBlank(v: Bytes)
    requires NoOuterBlanks(v)
    ensures DropBlanks(SkipBlanks([SP] + v)) == v
  {
    assert ([SP] + v)[1..] == v;
    assert SkipBlanks([SP] + v) == SkipBlanks(v) == v;
  }

  lemma PrintedHeaderParses(h: Header)
    requires WellFormedHeader(h)
    ensures HeaderLine(PrintHeader(h)) == Some(h)
    ensures LF !in PrintHeader(h)
  {
    var name := Utf8.Encode(h.name);
    var line := PrintHeader(h);
    PrintedName(h);
    hide Utf8.Encode;
    hide Utf8.Decode;
    FirstColon(line, name, [SP] + h.value);
    assert line[..|name|] == name;
    Utf8.RoundTrip(h.name);
    assert line[|name| + 1..] == [SP] + h.value;
    SkipsOneBlank(h.value);
    hide FirstMatch;
  }

  lemma PrintedName(h: Header)
    requires IsName(h.name)
    ensures COLON !in Utf8.Encode(h.name) && LF !in Utf8.Encode(h.name)
  {
    var name := Utf8.Encode(h.name);
    Utf8.EncodeAscii(h.name);
    forall i | 0 <= i < |name| ensures name[i] != COLON && name[i] != LF {
      assert h.name[i] in h.name;
    }
  }

  lemma FirstColon(line: Bytes, name: Bytes, tail: Bytes)
    requires line == name + [COLON] + tail && COLON !in name
    ensures FirstMatch(line, [COLON], 0) == Some(|name|)
  {
    hide FirstMatch;
    forall i | 0 <= i < |name| ensures !OccursAt(line, [COLON], i) {
      assert line[i..i + 1][0] == name[i];
    }
    assert line[|name|..|name| + 1] == [COLON];
    FirstMatchIs(line, [COLON], 0, |name|);
  }

  lemma {:induction false} PrintedHeadersParse(buf: Bytes, pos: nat, request: StartLine, before: seq<Header>,
                                               headers: seq<Header>)
    requires OccursAt(buf, PrintHeaders(headers), pos)
    requires |before| + |headers| <= MAX_HEADERS
    requires forall i :: 0 <= i < |headers| ==> WellFormedHeader(headers[i])
    ensures ParseHeaders(buf, pos, request, before)
            == Parsed(pos + |PrintHeaders(headers)|,
                      Head(request.verb, request.path, request.version, before + headers))
    decreases |headers|
  {
    hide HeaderLine;
    hide FirstMatch;
    hide PrintHeader;
    hide WellFormedHeader;
    if headers == [] {
      FirstMatchIs(buf, CRLF, pos, pos);
      assert before + [] == before;
    } else {
      var line, tail := PrintHeader(headers[0]), PrintHeaders(headers[1..]);
      OccursJoin(buf, line + CRLF, tail, pos);
      OccursJoin(buf, line, CRLF, pos);
      PrintedHeaderParses(headers[0]);
      NoLfIsLine(line);
      FirstMatchInside(buf, pos, line + CRLF, CRLF);
      LongHeader(headers[0]);
      PrintedHeadersParse(buf, pos + |line| + 2, request, before + [headers[0]], headers[1..]);
      assert before + [headers[0]] + headers[1..] == before + headers;
    }
  }

  // A 65th header makes a head malformed.
  lemma {:induction false} TooManyHeaders(buf: Bytes, pos: nat, request: StartLine, before: seq<Header>,
                                          headers: seq<Header>)
    requires OccursAt(buf, PrintHeaders(headers), pos)
    requires |before| <= MAX_HEADERS < |before| + |headers|
    requires forall i :: 0 <= i < |headers| ==> WellFormedHeader(headers[i])
    ensures ParseHeaders(buf, pos, request, before) == Malformed
    decreases |headers|
  {
    hide HeaderLine;
    hide FirstMatch;
    hide PrintHeader;
    hide WellFormedHeader;
    var line, tail := PrintHeader(headers[0]), PrintHeaders(headers[1..]);
    OccursJoin(buf, line + CRLF, tail, pos);
    OccursJoin(buf, line, CRLF, pos);
    PrintedHeaderParses(headers[0]);
    NoLfIsLine(line);
    FirstMatchInside(buf, pos, line + CRLF, CRLF);
    LongHeader(headers[0]);
    if |before| < MAX_HEADERS {
      TooManyHeaders(buf, pos + |line| + 2, request, before + [headers[0]], headers[1..]);
    }
  }

  lemma LongHeader(h: Header)
    ensures |PrintHeader(h)| >= 2
  {}

  // Parsing a printed head gives it back, whatever follows.
  lemma HeadRoundTrip(h: Head, more: Bytes)
    requires WellFormed(h)
    ensures ParseHead(PrintHead(h) + more) == Parsed(|PrintHead(h)|, h)
  {
    hide RequestLine;
    hide PrintRequest;
    hide FirstMatch;
    hide PrintHeaders;
    var buf := PrintHead(h) + more;
    var line := PrintRequest(h);
    assert buf[0..|PrintHead(h)|] == PrintHead(h);
    OccursJoin(buf, line + CRLF, PrintHeaders(h.headers), 0);
    OccursJoin(buf, line, CRLF, 0);
    PrintedRequestParses(h);
    NoLfIsLine(line);
    FirstMatchInside(buf, 0, line + CRLF, CRLF);
    assert buf[..|line|] == line;
    PrintedHeadersParse(buf, |line| + 2, StartLine(h.verb, h.path, h.version), [], h.headers);
    assert [] + h.headers == h.headers;
  }

  predicate WellFormedButForCount(h: Head) {
    && IsToken(h.verb) && IsPath(h.path) && IsVersion(h.version)
    && forall i :: 0 <= i < |h.headers| ==> WellFormedHeader(h.headers[i])
  }

  lemma LongHeadIsMalformed(h: Head, more: Bytes)
    requires WellFormedButForCount(h) && |h.headers| > MAX_HEADERS
    ensures ParseHead(PrintHead(h) + more) == Malformed
  {
    hide RequestLine;
    hide PrintRequest;
    hide FirstMatch;
    hide PrintHeaders;
    hide WellFormedHeader;
    var buf := PrintHead(h) + more;
    var line := PrintRequest(h);
    assert buf[0..|PrintHead(h)|] == PrintHead(h);
    OccursJoin(buf, line + CRLF, PrintHeaders(h.headers), 0);
    OccursJoin(buf, line, CRLF, 0);
    PrintedRequestParses(h);
    NoLfIsLine(line);
    FirstMatchInside(buf, 0, line + CRLF, CRLF);
    assert buf[..|line|] == line;
    TooManyHeaders(buf, |line| + 2, StartLine(h.verb, h.path, h.version), [], h.headers);
  }
}
