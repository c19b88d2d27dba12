/**
 The incremental decoder of chunked HTTP bodies (section 7.1 of RFC 9112), which is run
 again on the whole buffer after every read from the transport.
 */
module Chunked {
  import opened Results
  import opened Wire
  import opened Text
  import Utf8

  datatype Fault = BadSizeLine | BadSize | BadTerminator | BodyTooLarge

  // `Overflow` is no answer of the decoder: the position behind the chunk does not fit in 64 bits.
  datatype Answer = NeedMore | Complete(consumed: nat, body: Bytes) | Invalid(fault: Fault) | Overflow

  const BLANK_LINE: Bytes := CRLF + CRLF

  // The size a chunk header announces: hexadecimal, whatever follows a semicolon ignored.
  function ChunkSize(line: Bytes): Result<nat, Fault> {
    match Utf8.Decode(line)
    case None => Err(BadSizeLine)
    case Some(text) =>
      match ParseUnsigned(Trim(BeforeFirst(text, ';')), 16, U64_LIMIT)
      case None => Err(BadSize)
      case Some(size) => Ok(size)
  }

  method TryDecodeChunkedBody(buf: Bytes, maxBodyBytes: nat) returns (r: Answer)
    ensures r == Decoded(buf, maxBodyBytes)
  {
    hide ChunkSize;
    hide FirstMatch;
    hide DecodedFrom;
    var pos := 0;
    var decoded: Bytes := [];
    while true
      invariant pos <= |buf|
      invariant Decoded(buf, maxBodyBytes) == DecodedFrom(buf, pos, decoded, maxBodyBytes)
      decreases |buf| - pos
    {
      OneRound(buf, pos, decoded, maxBodyBytes, NextRound(buf, pos));
      var found := FirstMatch(buf, CRLF, pos);
      if found.None? {
        return NeedMore;
      }
      var lineEnd := found.value;
      var parsed := ChunkSize(buf[pos..lineEnd]);
      if parsed.Err? {
        return Invalid(parsed.error);
      }
      var size := parsed.value;
      var at := lineEnd + 2;

      if size == 0 {
        if |buf| < at + 2 {
          return NeedMore;
        }
        if OccursAt(buf, CRLF, at) {
          return Complete(at + 2, decoded);
        }
        var trailerEnd := FirstMatch(buf, BLANK_LINE, at);
        if trailerEnd.None? {
          return NeedMore;
        }
        return Complete(trailerEnd.value + 4, decoded);
      }

      if at + size + 2 >= U64_LIMIT {
        return Overflow;
      }
      if |buf| < at + size + 2 {
        return NeedMore;
      }
      var next := decoded + buf[at..at + size];
      if !OccursAt(buf, CRLF, at + size) {
        return Invalid(BadTerminator);
      }
      if |next| > maxBodyBytes {
        return Invalid(BodyTooLarge);
      }
      pos, decoded := at + size + 2, next;
    }
  }

  /* ----- what one round of the loop sees ----- */

  datatype Round = Wait | Fail(fault: Fault) | Overflows | Data(data: Bytes, next: nat) | End(next: nat)

  function LastRound(buf: Bytes, at: nat): (s: Round)
    requires at <= |buf|
    ensures s.End? ==> at < s.next <= |buf|
  {
    if |buf| < at + 2 then Wait
    else if OccursAt(buf, CRLF, at) then End(at + 2)
    else
      match FirstMatch(buf, BLANK_LINE, at)
      case None => Wait
      case Some(end) => End(end + 4)
  }

  function NextRound(buf: Bytes, pos: nat): (s: Round)
    requires pos <= |buf|
    ensures s.Data? ==> pos < s.next <= |buf| && s.data != []
    ensures s.End? ==> pos < s.next <= |buf|
  {
    match FirstMatch(buf, CRLF, pos)
    case None => Wait
    case Some(lineEnd) =>
      match ChunkSize(buf[pos..lineEnd])
      case Err(fault) => Fail(fault)
      case Ok(size) =>
        var at := lineEnd + 2;
        if size == 0 then LastRound(buf, at)
        else if at + size + 2 >= U64_LIMIT then Overflows
        else if |buf| < at + size + 2 then Wait
        else if !OccursAt(buf, CRLF, at + size) then Fail(BadTerminator)
        else Data(buf[at..at + size], at + size + 2)
  }

  function DecodedFrom(buf: Bytes, pos: nat, decoded: Bytes, maxBodyBytes: nat): (r: Answer)
    requires pos <= |buf|
    decreases |buf| - pos
  {
    match NextRound(buf, pos)
    case Wait => NeedMore
    case Fail(fault) => Invalid(fault)
    case Overflows => Overflow
    case End(next) => Complete(next, decoded)
    case Data(data, next) =>
      if |decoded + data| > maxBodyBytes then Invalid(BodyTooLarge)
      else DecodedFrom(buf, next, decoded + data, maxBodyBytes)
  }

  function Decoded(buf: Bytes, maxBodyBytes: nat): Answer {
    DecodedFrom(buf, 0, [], maxBodyBytes)
  }

  lemma OneRound(buf: Bytes, pos: nat, decoded: Bytes, maxBodyBytes: nat, round: Round)
    requires pos <= |buf| && round == NextRound(buf, pos)
    ensures DecodedFrom(buf, pos, decoded, maxBodyBytes)
         == if round.Wait? then NeedMore
            else if round.Fail? then Invalid(round.fault)
            else if round.Overflows? then Overflow
            else if round.End? then Complete(round.next, decoded)
            else if |decoded + round.data| > maxBodyBytes then Invalid(BodyTooLarge)
            else DecodedFrom(buf, round.next, decoded + round.data, maxBodyBytes)
  {
    hide NextRound;
  }

  /* ----- an answer is final ----- */

  lemma RoundStable(buf: Bytes, more: Bytes, pos: nat)
    requires pos <= |buf| && !NextRound(buf, pos).Wait?
    ensures NextRound(buf + more, pos) == NextRound(buf, pos)
  {
    hide ChunkSize;
    hide FirstMatch;
    FirstMatchStable(buf, more, CRLF, pos);
    var lineEnd := FirstMatch(buf, CRLF, pos).value;
    assert (buf + more)[pos..lineEnd] == buf[pos..lineEnd];
    var size := ChunkSize(buf[pos..lineEnd]);
    if size.Ok? {
      var at := lineEnd + 2;
      if size.value == 0 {
        LastRoundStable(buf, more, at);
      } else if at + size.value + 2 < U64_LIMIT {
        OccursLocal(buf, more, CRLF, at + size.value);
        assert (buf + more)[at..at + size.value] == buf[at..at + size.value];
      }
    }
  }

  lemma LastRoundStable(buf: Bytes, more: Bytes, at: nat)
    requires at <= |buf| && !LastRound(buf, at).Wait?
    ensures LastRound(buf + more, at) == LastRound(buf, at)
  {
    hide FirstMatch;
    OccursLocal(buf, more, CRLF, at);
    if !OccursAt(buf, CRLF, at) {
      FirstMatchStable(buf, more, BLANK_LINE, at);
    }
  }

  lemma {:induction false} StableFrom(buf: Bytes, more: Bytes, pos: nat, decoded: Bytes, maxBodyBytes: nat)
    requires pos <= |buf| && !DecodedFrom(buf, pos, decoded, maxBodyBytes).NeedMore?
    ensures DecodedFrom(buf + more, pos, decoded, maxBodyBytes) == DecodedFrom(buf, pos, decoded, maxBodyBytes)
    decreases |buf| - pos
  {
    hide ChunkSize;
    RoundStable(buf, more, pos);
    match NextRound(buf, pos) {
      case Data(data, next) =>
        if |decoded + data| <= maxBodyBytes {
          StableFrom(buf, more, next, decoded + data, maxBodyBytes);
        }
      case _ =>
    }
  }

  // Once the decoder has answered, further bytes do not change the answer.
  lemma DecoderStable(buf: Bytes, more: Bytes, maxBodyBytes: nat)
    requires !Decoded(buf, maxBodyBytes).NeedMore?
    ensures Decoded(buf + more, maxBodyBytes) == Decoded(buf, maxBodyBytes)
  {
    StableFrom(buf, more, 0, [], maxBodyBytes);
  }

  lemma {:induction false} CompleteFrom(buf: Bytes, pos: nat, decoded: Bytes, maxBodyBytes: nat)
    requires pos <= |buf| && |decoded| <= maxBodyBytes
    ensures var r := DecodedFrom(buf, pos, decoded, maxBodyBytes);
            r.Complete? ==> pos < r.consumed <= |buf| && |r.body| <= maxBodyBytes
    decreases |buf| - pos
  {
    hide ChunkSize;
    match NextRound(buf, pos) {
      case Data(data, next) =>
        if |decoded + data| <= maxBodyBytes {
          CompleteFrom(buf, next, decoded + data, maxBodyBytes);
        }
      case _ =>
    }
  }

  // A complete body lies in the buffer and within the limit, and every shorter prefix
  // of the consumed bytes is still undecided.
  lemma CompleteIsTight(buf: Bytes, maxBodyBytes: nat, end: nat)
    requires Decoded(buf, maxBodyBytes).Complete?
    ensures var r := Decoded(buf, maxBodyBytes);
            && 0 < r.consumed <= |buf|
            && |r.body| <= maxBodyBytes
            && (end < r.consumed ==> Decoded(buf[..end], maxBodyBytes) == NeedMore)
  {
    hide ChunkSize;
    hide DecodedFrom;
    CompleteFrom(buf, 0, [], maxBodyBytes);
    if end < Decoded(buf, maxBodyBytes).consumed && Decoded(buf[..end], maxBodyBytes) != NeedMore {
      assert buf == buf[..end] + buf[end..];
      DecoderStable(buf[..end], buf[end..], maxBodyBytes);
      CompleteFrom(buf[..end], 0, [], maxBodyBytes);
      assert false;
    }
  }

  /* ----- the language: chunks, a zero chunk and a trailer section ----- */

  datatype Chunk = Chunk(line: Bytes, data: Bytes)
  datatype Message = Message(chunks: seq<Chunk>, last: Bytes, trailer: Bytes)

  predicate ValidChunk(c: Chunk) {
    IsLine(c.line) && ChunkSize(c.line) == Ok(|c.data|) && c.data != []
  }

  predicate ValidTrailer(trailer: Bytes) {
    || trailer == CRLF
    || (|trailer| >= 4 && !OccursAt(trailer, CRLF, 0) && FirstMatch(trailer, BLANK_LINE, 0) == Some(|trailer| - 4))
  }

  predicate ValidMessage(m: Message) {
    && (forall c :: c in m.chunks ==> ValidChunk(c))
    && IsLine(m.last) && ChunkSize(m.last) == Ok(0)
    && ValidTrailer(m.trailer)
  }

  function RenderChunk(c: Chunk): Bytes {
    c.line + CRLF + c.data + CRLF
  }

  function RenderEnd(m: Message): Bytes {
    m.last + CRLF + m.trailer
  }

  function Render(m: Message): Bytes
    decreases |m.chunks|
  {
    if m.chunks == [] then RenderEnd(m)
    else RenderChunk(m.chunks[0]) + Render(m.(chunks := m.chunks[1..]))
  }

  function Payload(chunks: seq<Chunk>): Bytes {
    if chunks == [] then [] else chunks[0].data + Payload(chunks[1..])
  }

  lemma RoundReadsChunk(buf: Bytes, pos: nat, c: Chunk)
    requires |buf| < U64_LIMIT && ValidChunk(c) && OccursAt(buf, RenderChunk(c), pos)
    ensures NextRound(buf, pos) == Data(c.data, pos + |RenderChunk(c)|)
  {
    hide ChunkSize;
    hide FirstMatch;
    OccursJoin(buf, c.line + CRLF + c.data, CRLF, pos);
    OccursJoin(buf, c.line + CRLF, c.data, pos);
    OccursJoin(buf, c.line, CRLF, pos);
    FirstMatchInside(buf, pos, c.line + CRLF, CRLF);
  }

  lemma RoundReadsEnd(buf: Bytes, pos: nat, m: Message)
    requires ValidMessage(m) && OccursAt(buf, RenderEnd(m), pos)
    ensures NextRound(buf, pos) == End(pos + |RenderEnd(m)|)
  {
    hide ChunkSize;
    hide FirstMatch;
    var at := pos + |m.last| + 2;
    OccursJoin(buf, m.last + CRLF, m.trailer, pos);
    OccursJoin(buf, m.last, CRLF, pos);
    FirstMatchInside(buf, pos, m.last + CRLF, CRLF);
    LastRoundReads(buf, at, m.trailer);
  }

  lemma LastRoundReads(buf: Bytes, at: nat, trailer: Bytes)
    requires ValidTrailer(trailer) && OccursAt(buf, trailer, at)
    ensures LastRound(buf, at) == End(at + |trailer|)
  {
    hide FirstMatch;
    OccursPart(buf, trailer, at, CRLF, 0);
    if trailer != CRLF {
      FirstMatchInside(buf, at, trailer, BLANK_LINE);
    }
  }

  lemma {:induction false} DecodesFrom(buf: Bytes, pos: nat, m: Message, decoded: Bytes, maxBodyBytes: nat)
    requires |buf| < U64_LIMIT && ValidMessage(m) && OccursAt(buf, Render(m), pos)
    requires |decoded| + |Payload(m.chunks)| <= maxBodyBytes
    ensures DecodedFrom(buf, pos, decoded, maxBodyBytes) == Complete(pos + |Render(m)|, decoded + Payload(m.chunks))
    decreases |m.chunks|
  {
    hide ChunkSize;
    hide NextRound;
    hide RenderChunk;
    hide RenderEnd;
    hide ValidChunk;
    hide ValidTrailer;
    hide IsLine;
    if m.chunks == [] {
      RoundReadsEnd(buf, pos, m);
      assert decoded + [] == decoded;
    } else {
      var c, tail := m.chunks[0], m.(chunks := m.chunks[1..]);
      OccursJoin(buf, RenderChunk(c), Render(tail), pos);
      RoundReadsChunk(buf, pos, c);
      DecodesFrom(buf, pos + |RenderChunk(c)|, tail, decoded + c.data, maxBodyBytes);
      assert decoded + c.data + Payload(tail.chunks) == decoded + Payload(m.chunks);
    }
  }

  lemma RenderedDecodes(m: Message, more: Bytes, maxBodyBytes: nat)
    requires |Render(m) + more| < U64_LIMIT && ValidMessage(m) && |Payload(m.chunks)| <= maxBodyBytes
    ensures Decoded(Render(m) + more, maxBodyBytes) == Complete(|Render(m)|, Payload(m.chunks))
  {
    hide DecodedFrom;
    hide Render;
    hide ValidMessage;
    var wire := Render(m) + more;
    assert wire[0..|Render(m)|] == Render(m);
    DecodesFrom(wire, 0, m, [], maxBodyBytes);
    assert [] + Payload(m.chunks) == Payload(m.chunks);
  }

  // The header line a round looks at.
  lemma HeaderLine(buf: Bytes, pos: nat) returns (line: Bytes)
    requires FirstMatch(buf, CRLF, pos).Some?
    ensures pos + |line| == FirstMatch(buf, CRLF, pos).value <= |buf| - 2
    ensures line == buf[pos..pos + |line|] && IsLine(line) && OccursAt(buf, line + CRLF, pos)
  {
    hide FirstMatch;
    FirstMatchAlone(buf, CRLF, pos);
    var lineEnd := FirstMatch(buf, CRLF, pos).value;
    line := buf[pos..lineEnd];
    OccursJoin(buf, line, CRLF, pos);
    assert buf[pos..lineEnd + 2] == line + CRLF;
  }

  // And what was found behind it.
  lemma RoundLine(buf: Bytes, pos: nat) returns (line: Bytes)
    requires pos <= |buf| && (NextRound(buf, pos).Data? || NextRound(buf, pos).End?)
    ensures IsLine(line) && OccursAt(buf, line + CRLF, pos)
    ensures NextRound(buf, pos).Data? ==>
              var c := Chunk(line, NextRound(buf, pos).data);
              ValidChunk(c) && OccursAt(buf, RenderChunk(c), pos)
              && NextRound(buf, pos).next == pos + |RenderChunk(c)|
    ensures NextRound(buf, pos).End? ==>
              ChunkSize(line) == Ok(0) && NextRound(buf, pos) == LastRound(buf, pos + |line| + 2)
  {
    hide ChunkSize;
    hide FirstMatch;
    hide IsLine;
    line := HeaderLine(buf, pos);
    if NextRound(buf, pos).Data? {
      var data := NextRound(buf, pos).data;
      DataBehindLine(buf, pos, line, data);
    }
  }

  lemma DataBehindLine(buf: Bytes, pos: nat, line: Bytes, data: Bytes)
    requires OccursAt(buf, line + CRLF, pos) && OccursAt(buf, data, pos + |line| + 2)
    requires OccursAt(buf, CRLF, pos + |line| + 2 + |data|)
    ensures OccursAt(buf, RenderChunk(Chunk(line, data)), pos)
  {
    hide OccursAt;
    OccursJoin(buf, line + CRLF, data, pos);
    OccursJoin(buf, line + CRLF + data, CRLF, pos);
  }

  lemma LastRoundTrailer(buf: Bytes, at: nat) returns (trailer: Bytes)
    requires at <= |buf| && LastRound(buf, at).End?
    ensures ValidTrailer(trailer) && OccursAt(buf, trailer, at)
    ensures LastRound(buf, at).next == at + |trailer|
  {
    hide FirstMatch;
    trailer := buf[at..LastRound(buf, at).next];
    OccursPart(buf, trailer, at, CRLF, 0);
    if !OccursAt(buf, CRLF, at) {
      FirstMatchAlone(buf, BLANK_LINE, at);
    }
  }

  lemma {:induction false} CompleteIsMessage(buf: Bytes, pos: nat, decoded: Bytes, maxBodyBytes: nat)
    returns (m: Message)
    requires pos <= |buf| && |decoded| <= maxBodyBytes
    ensures DecodedFrom(buf, pos, decoded, maxBodyBytes).Complete? ==>
              && ValidMessage(m) && OccursAt(buf, Render(m), pos) && |decoded| + |Payload(m.chunks)| <= maxBodyBytes
              && DecodedFrom(buf, pos, decoded, maxBodyBytes)
                 == Complete(pos + |Render(m)|, decoded + Payload(m.chunks))
    decreases |buf| - pos
  {
    hide ChunkSize;
    hide NextRound;
    hide LastRound;
    hide RenderChunk;
    hide ValidChunk;
    hide ValidTrailer;
    hide IsLine;
    m := Message([], [], []);
    match NextRound(buf, pos) {
      case Data(data, next) =>
        if |decoded + data| > maxBodyBytes {
          return;
        }
        var line := RoundLine(buf, pos);
        var c := Chunk(line, data);
        var tail := CompleteIsMessage(buf, next, decoded + data, maxBodyBytes);
        m := tail.(chunks := [c] + tail.chunks);
        assert m.chunks[1..] == tail.chunks;
        assert Render(m) == RenderChunk(c) + Render(tail);
        OccursJoin(buf, RenderChunk(c), Render(tail), pos);
        assert decoded + Payload(m.chunks) == decoded + data + Payload(tail.chunks);
      case End(next) =>
        var line := RoundLine(buf, pos);
        var trailer := LastRoundTrailer(buf, pos + |line| + 2);
        m := Message([], line, trailer);
        OccursJoin(buf, line + CRLF, trailer, pos);
        assert decoded + [] == decoded;
      case _ =>
    }
  }

  // The decoder accepts exactly the chunked messages: it answers (consumed, body) if and
  // only if the buffer begins with a message of that length and payload, within the limit.
  lemma DecoderAcceptsExactlyMessages(buf: Bytes, maxBodyBytes: nat, consumed: nat, body: Bytes)
    requires |buf| < U64_LIMIT
    ensures Decoded(buf, maxBodyBytes) == Complete(consumed, body) <==>
            exists m :: ValidMessage(m) && OccursAt(buf, Render(m), 0) && consumed == |Render(m)|
                        && body == Payload(m.chunks) && |body| <= maxBodyBytes
  {
    hide ChunkSize;
    hide DecodedFrom;
    hide Render;
    hide ValidMessage;
    if Decoded(buf, maxBodyBytes) == Complete(consumed, body) {
      var m := CompleteIsMessage(buf, 0, [], maxBodyBytes);
      assert [] + Payload(m.chunks) == Payload(m.chunks);
    }
    if m :| ValidMessage(m) && OccursAt(buf, Render(m), 0) && consumed == |Render(m)|
            && body == Payload(m.chunks) && |body| <= maxBodyBytes {
      DecodesFrom(buf, 0, m, [], maxBodyBytes);
      assert [] + Payload(m.chunks) == Payload(m.chunks);
    }
  }

  // A complete answer looks at nothing behind the consumed bytes.
  lemma DecoderLocal(buf: Bytes, maxBodyBytes: nat, end: nat)
    requires |buf| < U64_LIMIT && Decoded(buf, maxBodyBytes).Complete?
    requires Decoded(buf, maxBodyBytes).consumed <= end <= |buf|
    ensures Decoded(buf[..end], maxBodyBytes) == Decoded(buf, maxBodyBytes)
  {
    hide ChunkSize;
    hide DecodedFrom;
    hide Render;
    hide ValidMessage;
    var m := CompleteIsMessage(buf, 0, [], maxBodyBytes);
    assert buf[..end][0..|Render(m)|] == buf[0..|Render(m)|];
    DecodesFrom(buf[..end], 0, m, [], maxBodyBytes);
  }

  /* ----- when the position overflows ----- */

  function RenderChunks(chunks: seq<Chunk>): Bytes {
    if chunks == [] then [] else RenderChunk(chunks[0]) + RenderChunks(chunks[1..])
  }

  predicate ValidChunks(chunks: seq<Chunk>) {
    forall c :: c in chunks ==> ValidChunk(c)
  }

  // A size line at `pos` whose chunk would end beyond the last position there is.
  predicate Overruns(line: Bytes, pos: nat) {
    IsLine(line) && ChunkSize(line).Ok? && ChunkSize(line).value > 0
    && pos + |line| + 2 + ChunkSize(line).value + 2 >= U64_LIMIT
  }

  lemma RoundOverflows(buf: Bytes, pos: nat, line: Bytes)
    requires OccursAt(buf, line + CRLF, pos) && Overruns(line, pos)
    ensures NextRound(buf, pos) == Overflows
  {
    hide ChunkSize;
    hide FirstMatch;
    OccursJoin(buf, line, CRLF, pos);
    FirstMatchInside(buf, pos, line + CRLF, CRLF);
  }

  lemma OverflowLine(buf: Bytes, pos: nat) returns (line: Bytes)
    requires pos <= |buf| && NextRound(buf, pos) == Overflows
    ensures Overruns(line, pos) && OccursAt(buf, line + CRLF, pos)
  {
    hide ChunkSize;
    hide FirstMatch;
    hide IsLine;
    line := HeaderLine(buf, pos);
  }

  lemma {:induction false} OverflowsFrom(buf: Bytes, pos: nat, chunks: seq<Chunk>, line: Bytes, decoded: Bytes,
                                         maxBodyBytes: nat)
    requires |buf| < U64_LIMIT && ValidChunks(chunks) && |decoded| + |Payload(chunks)| <= maxBodyBytes
    requires OccursAt(buf, RenderChunks(chunks) + (line + CRLF), pos) && Overruns(line, pos + |RenderChunks(chunks)|)
    ensures DecodedFrom(buf, pos, decoded, maxBodyBytes) == Overflow
    decreases |chunks|
  {
    hide ChunkSize;
    hide NextRound;
    hide Overruns;
    hide RenderChunk;
    hide ValidChunk;
    if chunks == [] {
      assert RenderChunks(chunks) + (line + CRLF) == line + CRLF;
      RoundOverflows(buf, pos, line);
    } else {
      var c, tail := chunks[0], chunks[1..];
      assert RenderChunks(chunks) + (line + CRLF) == RenderChunk(c) + (RenderChunks(tail) + (line + CRLF));
      OccursJoin(buf, RenderChunk(c), RenderChunks(tail) + (line + CRLF), pos);
      RoundReadsChunk(buf, pos, c);
      OverflowsFrom(buf, pos + |RenderChunk(c)|, tail, line, decoded + c.data, maxBodyBytes);
    }
  }

  lemma {:induction false} OverflowIs(buf: Bytes, pos: nat, decoded: Bytes, maxBodyBytes: nat)
    returns (chunks: seq<Chunk>, line: Bytes)
    requires pos <= |buf| && |decoded| <= maxBodyBytes && DecodedFrom(buf, pos, decoded, maxBodyBytes) == Overflow
    ensures ValidChunks(chunks) && |decoded| + |Payload(chunks)| <= maxBodyBytes
    ensures OccursAt(buf, RenderChunks(chunks) + (line + CRLF), pos) && Overruns(line, pos + |RenderChunks(chunks)|)
    decreases |buf| - pos
  {
    hide ChunkSize;
    hide NextRound;
    hide Overruns;
    hide RenderChunk;
    hide ValidChunk;
    match NextRound(buf, pos) {
      case Overflows =>
        chunks := [];
        line := OverflowLine(buf, pos);
        assert RenderChunks([]) + (line + CRLF) == line + CRLF;
      case Data(data, next) =>
        var first := RoundLine(buf, pos);
        var c := Chunk(first, data);
        var tail;
        tail, line := OverflowIs(buf, next, decoded + data, maxBodyBytes);
        chunks := [c] + tail;
        assert chunks[1..] == tail;
        assert RenderChunks(chunks) + (line + CRLF) == RenderChunk(c) + (RenderChunks(tail) + (line + CRLF));
        OccursJoin(buf, RenderChunk(c), RenderChunks(tail) + (line + CRLF), pos);
    }
  }

  // The position overflows exactly on a buffer that starts with valid chunks within the limit and
  // then announces a chunk that would end beyond the last position.
  lemma OverflowsExactly(buf: Bytes, maxBodyBytes: nat)
    requires |buf| < U64_LIMIT
    ensures Decoded(buf, maxBodyBytes) == Overflow <==>
            exists chunks, line :: ValidChunks(chunks) && |Payload(chunks)| <= maxBodyBytes
                                   && OccursAt(buf, RenderChunks(chunks) + (line + CRLF), 0)
                                   && Overruns(line, |RenderChunks(chunks)|)
  {
    hide DecodedFrom;
    hide RenderChunks;
    hide ValidChunks;
    hide Overruns;
    if Decoded(buf, maxBodyBytes) == Overflow {
      var chunks, line := OverflowIs(buf, 0, [], maxBodyBytes);
    }
    if chunks, line :| ValidChunks(chunks) && |Payload(chunks)| <= maxBodyBytes
                       && OccursAt(buf, RenderChunks(chunks) + (line + CRLF), 0)
                       && Overruns(line, |RenderChunks(chunks)|) {
      OverflowsFrom(buf, 0, chunks, line, [], maxBodyBytes);
    }
  }

  /* ----- when it is refused ----- */

  // What follows the chunks before `pos`, `got` bytes of body, and why it is refused: a whole
  // size line that is no text or no size, a whole chunk without its end of line, or a whole chunk
  // with which the body is too large.
  predicate Offends(buf: Bytes, pos: nat, got: nat, maxBodyBytes: nat, line: Bytes, data: Bytes, fault: Fault) {
    && IsLine(line) && OccursAt(buf, line + CRLF, pos)
    && match fault
       case BadSizeLine => Utf8.Decode(line).None?
       case BadSize => ChunkSize(line) == Err(BadSize)
       case BadTerminator =>
         var end := pos + |line| + 2 + |data|;
         && ChunkSize(line) == Ok(|data|) && data != [] && end + 2 <= |buf|
         && OccursAt(buf, data, pos + |line| + 2) && !OccursAt(buf, CRLF, end)
       case BodyTooLarge =>
         && ValidChunk(Chunk(line, data)) && OccursAt(buf, RenderChunk(Chunk(line, data)), pos)
         && got + |data| > maxBodyBytes
  }

  lemma RoundOffends(buf: Bytes, pos: nat, got: nat, maxBodyBytes: nat, line: Bytes, data: Bytes, fault: Fault)
    requires |buf| < U64_LIMIT && Offends(buf, pos, got, maxBodyBytes, line, data, fault)
    ensures if fault == BodyTooLarge then NextRound(buf, pos).Data? && NextRound(buf, pos).data == data
            else NextRound(buf, pos) == Fail(fault)
    ensures fault == BodyTooLarge ==> got + |data| > maxBodyBytes
  {
    hide NextRound;
    if fault == BodyTooLarge {
      hide ChunkSize;
      RoundReadsChunk(buf, pos, Chunk(line, data));
    } else {
      NoSize(line);
      if fault != BadTerminator {
        SizeFault(line);
      }
      hide ChunkSize;
      RoundOfLine(buf, pos, line);
    }
  }

  // The line a round starts with decides, as far as its size does.
  lemma RoundOfLine(buf: Bytes, pos: nat, line: Bytes)
    requires IsLine(line) && OccursAt(buf, line + CRLF, pos)
    ensures pos + |line| + 2 <= |buf|
    ensures var at := pos + |line| + 2;
            NextRound(buf, pos)
            == if ChunkSize(line).Err? then Fail(ChunkSize(line).error)
               else if ChunkSize(line).value == 0 then LastRound(buf, at)
               else
                 var end := at + ChunkSize(line).value;
                 if end + 2 >= U64_LIMIT then Overflows
                 else if |buf| < end + 2 then Wait
                 else if !OccursAt(buf, CRLF, end) then Fail(BadTerminator)
                 else Data(buf[at..end], end + 2)
  {
    hide ChunkSize;
    hide FirstMatch;
    hide LastRound;
    OccursJoin(buf, line, CRLF, pos);
    FirstMatchInside(buf, pos, line + CRLF, CRLF);
  }

  lemma SizeFault(line: Bytes)
    requires ChunkSize(line).Err?
    ensures ChunkSize(line) == Err(if Utf8.Decode(line).None? then BadSizeLine else BadSize)
  {}

  lemma NoSize(line: Bytes)
    ensures Utf8.Decode(line).None? ==> ChunkSize(line).Err?
  {}

  lemma FailedLine(buf: Bytes, pos: nat, got: nat, maxBodyBytes: nat) returns (line: Bytes, data: Bytes)
    requires pos <= |buf| && NextRound(buf, pos).Fail?
    ensures Offends(buf, pos, got, maxBodyBytes, line, data, NextRound(buf, pos).fault)
  {
    hide ChunkSize;
    hide FirstMatch;
    hide IsLine;
    hide LastRound;
    FailHasLine(buf, pos);
    line := HeaderLine(buf, pos);
    hide NextRound;
    RoundOfLine(buf, pos, line);
    data := [];
    if ChunkSize(line).Err? {
      SizeFault(line);
    } else {
      LastRoundNeverFails(buf, pos + |line| + 2);
      var at := pos + |line| + 2;
      data := buf[at..at + ChunkSize(line).value];
    }
  }

  lemma FailHasLine(buf: Bytes, pos: nat)
    requires pos <= |buf| && NextRound(buf, pos).Fail?
    ensures FirstMatch(buf, CRLF, pos).Some?
  {
    hide ChunkSize;
    hide FirstMatch;
  }

  lemma LastRoundNeverFails(buf: Bytes, at: nat)
    requires at <= |buf|
    ensures !LastRound(buf, at).Fail?
  {
    hide FirstMatch;
  }

  lemma {:induction false} OffendsFrom(buf: Bytes, pos: nat, chunks: seq<Chunk>, line: Bytes, data: Bytes,
                                       decoded: Bytes, maxBodyBytes: nat, fault: Fault)
    requires |buf| < U64_LIMIT && ValidChunks(chunks) && |decoded| + |Payload(chunks)| <= maxBodyBytes
    requires OccursAt(buf, RenderChunks(chunks), pos)
    requires Offends(buf, pos + |RenderChunks(chunks)|, |decoded| + |Payload(chunks)|, maxBodyBytes, line, data, fault)
    ensures DecodedFrom(buf, pos, decoded, maxBodyBytes) == Invalid(fault)
    decreases |chunks|
  {
    hide ChunkSize;
    hide NextRound;
    hide Offends;
    hide RenderChunk;
    hide ValidChunk;
    if chunks == [] {
      RoundOffends(buf, pos, |decoded|, maxBodyBytes, line, data, fault);
    } else {
      var c, tail := chunks[0], chunks[1..];
      OccursJoin(buf, RenderChunk(c), RenderChunks(tail), pos);
      RoundReadsChunk(buf, pos, c);
      OffendsFrom(buf, pos + |RenderChunk(c)|, tail, line, data, decoded + c.data, maxBodyBytes, fault);
    }
  }

  lemma {:induction false} OffenceIs(buf: Bytes, pos: nat, decoded: Bytes, maxBodyBytes: nat)
    returns (chunks: seq<Chunk>, line: Bytes, data: Bytes)
    requires pos <= |buf| && |decoded| <= maxBodyBytes && DecodedFrom(buf, pos, decoded, maxBodyBytes).Invalid?
    ensures ValidChunks(chunks) && |decoded| + |Payload(chunks)| <= maxBodyBytes
    ensures OccursAt(buf, RenderChunks(chunks), pos)
    ensures Offends(buf, pos + |RenderChunks(chunks)|, |decoded| + |Payload(chunks)|, maxBodyBytes, line, data,
                    DecodedFrom(buf, pos, decoded, maxBodyBytes).fault)
    decreases |buf| - pos
  {
    hide ChunkSize;
    hide NextRound;
    hide Offends;
    hide RenderChunk;
    hide ValidChunk;
    chunks := [];
    match NextRound(buf, pos) {
      case Fail(fault) =>
        line, data := FailedLine(buf, pos, |decoded|, maxBodyBytes);
      case Data(body, next) =>
        line := RoundLine(buf, pos);
        data := body;
        var c := Chunk(line, body);
        if |decoded + body| <= maxBodyBytes {
          var tail;
          tail, line, data := OffenceIs(buf, next, decoded + body, maxBodyBytes);
          chunks := [c] + tail;
          assert chunks[1..] == tail;
          assert RenderChunks(chunks) == RenderChunk(c) + RenderChunks(tail);
          OccursJoin(buf, RenderChunk(c), RenderChunks(tail), pos);
        } else {
          ChunkOffends(buf, pos, |decoded|, maxBodyBytes, line, data);
        }
    }
  }

  lemma ChunkOffends(buf: Bytes, pos: nat, got: nat, maxBodyBytes: nat, line: Bytes, data: Bytes)
    requires ValidChunk(Chunk(line, data)) && OccursAt(buf, RenderChunk(Chunk(line, data)), pos)
    requires got + |data| > maxBodyBytes
    ensures Offends(buf, pos, got, maxBodyBytes, line, data, BodyTooLarge)
  {
    hide ChunkSize;
    hide IsLine;
    OccursJoin(buf, line + CRLF + data, CRLF, pos);
    OccursJoin(buf, line + CRLF, data, pos);
  }

  // It is refused exactly when valid chunks within the limit are followed by an offence, with the
  // fault of that offence. What is neither complete nor refused nor overflows waits for more.
  lemma RefusesExactly(buf: Bytes, maxBodyBytes: nat, fault: Fault)
    requires |buf| < U64_LIMIT
    ensures Decoded(buf, maxBodyBytes) == Invalid(fault) <==>
            exists chunks, line, data ::
              ValidChunks(chunks) && |Payload(chunks)| <= maxBodyBytes && OccursAt(buf, RenderChunks(chunks), 0)
              && Offends(buf, |RenderChunks(chunks)|, |Payload(chunks)|, maxBodyBytes, line, data, fault)
  {
    hide DecodedFrom;
    hide RenderChunks;
    hide ValidChunks;
    hide Offends;
    if Decoded(buf, maxBodyBytes) == Invalid(fault) {
      var chunks, line, data := OffenceIs(buf, 0, [], maxBodyBytes);
    }
    if chunks, line, data :|
      ValidChunks(chunks) && |Payload(chunks)| <= maxBodyBytes && OccursAt(buf, RenderChunks(chunks), 0)
      && Offends(buf, |RenderChunks(chunks)|, |Payload(chunks)|, maxBodyBytes, line, data, fault) {
      OffendsFrom(buf, 0, chunks, line, data, [], maxBodyBytes, fault);
    }
  }

  /* ----- the encodings a client sends: minimal sizes, no extensions, no trailers ----- */

  predicate PlainChunk(c: Chunk) {
    c.data != []
    && (c.line == Utf8.Encode(HexText(|c.data|, LOWER_HEX)) || c.line == Utf8.Encode(HexText(|c.data|, UPPER_HEX)))
  }

  predicate Plain(m: Message) {
    && (forall c :: c in m.chunks ==> PlainChunk(c))
    && m.last == Utf8.Encode("0") && m.trailer == CRLF
  }

  lemma HexLine(text: string)
    requires text != [] && AllDigits(text, 16) && ValueOf(text, 16) < U64_LIMIT
    ensures ChunkSize(Utf8.Encode(text)) == Ok(ValueOf(text, 16))
    ensures IsLine(Utf8.Encode(text)) && |Utf8.Encode(text)| == |text|
  {
    hide ValueOf;
    hide Utf8.Encode;
    hide Utf8.Decode;
    hide IsLine;
    HexIsLine(text);
    Utf8.RoundTrip(text);
    HexIsPlain(text);
    hide IndexOf;
    hide Trim;
    hide AllDigits;
  }

  lemma HexIsPlain(text: string)
    requires text != [] && AllDigits(text, 16)
    ensures BeforeFirst(text, ';') == text && Trim(text) == text && text[0] != '+'
  {
    assert text[..|text|] == text && DigitValue(';') == 99;
    IndexOfIs(text, ';', |text|);
    assert text[0] in text && text[|text| - 1] in text;
    TrimNoSpace(text);
  }

  lemma HexIsLine(text: string)
    requires AllDigits(text, 16)
    ensures IsLine(Utf8.Encode(text)) && |Utf8.Encode(text)| == |text|
  {
    hide Utf8.Encode;
    assert forall c :: c in text ==> DigitValue(c) < 16;
    Utf8.EncodeAscii(text);
    var line := Utf8.Encode(text);
    forall i | 0 <= i < |line| ensures line[i] != LF {
      assert text[i] in text;
    }
    NoLfIsLine(line);
  }

  predicate Blanks(s: string) {
    forall i :: 0 <= i < |s| ==> s[i] == ' ' || s[i] == '\t'
  }

  predicate Zeros(s: string) {
    forall i :: 0 <= i < |s| ==> s[i] == '0'
  }

  // A printed size is read back in small and in capital letters, with leading zeros, with blanks
  // around it and with any extension behind a semicolon.
  lemma PrintedSizeIsRead(n: nat, alphabet: string, zeros: string, before: string, after: string, extension: string)
    requires n < U64_LIMIT && IsHexAlphabet(alphabet) && Zeros(zeros) && Blanks(before) && Blanks(after)
    requires extension == "" || extension[0] == ';'
    ensures ChunkSize(Utf8.Encode(before + (zeros + HexText(n, alphabet)) + after + extension)) == Ok(n)
  {
    hide Utf8.Encode;
    hide Utf8.Decode;
    hide ValueOf;
    hide AllDigits;
    hide IndexOf;
    hide Trim;
    hide HexText;
    var text := zeros + HexText(n, alphabet);
    var all := before + text + after + extension;
    Utf8.RoundTrip(all);
    HexValue(n, alphabet);
    ZerosFirst(zeros, HexText(n, alphabet), 16);
    HexIsPlain(text);
    BlanksAround(before, text, after);
    assert all[..|before + text + after|] == before + text + after;
    IndexOfIs(all, ';', |before + text + after|);
  }

  lemma BlanksAround(before: string, text: string, after: string)
    requires text != [] && AllDigits(text, 16) && Blanks(before) && Blanks(after)
    ensures Trim(before + text + after) == text && ';' !in before + text + after
  {
    assert text[0] in text && text[|text| - 1] in text && DigitValue(';') == 99;
    TrimIs(before, text, after);
  }

  // Anything else is refused: no digits, a character that is no digit, or a size of 65 bits.
  lemma OtherSizesAreRefused(text: string)
    requires Trim(text) == text && ';' !in text
    ensures ChunkSize(Utf8.Encode(text)).Ok? <==>
            var digits := if text != "" && text[0] == '+' then text[1..] else text;
            && digits != "" && (forall c :: c in digits ==> c in LOWER_HEX || c in UPPER_HEX)
            && ValueOf(digits, 16) < U64_LIMIT
  {
    hide Utf8.Encode;
    hide Utf8.Decode;
    hide ValueOf;
    hide Trim;
    Utf8.RoundTrip(text);
    assert text[..|text|] == text;
    IndexOfIs(text, ';', |text|);
    hide IndexOf;
    forall c: char
      ensures DigitValue(c) < 16 <==> c in LOWER_HEX || c in UPPER_HEX
    {
      OnlyHexDigits(c);
    }
  }

  const LARGEST := "ffffffffffffffff"

  function Fs(n: nat): nat {
    if n == 0 then 0 else Fs(n - 1) * 16 + 15
  }

  lemma {:induction false} ValueOfFs(text: string)
    requires forall c :: c in text ==> c == 'f'
    ensures AllDigits(text, 16) && ValueOf(text, 16) == Fs(|text|)
    decreases |text|
  {
    if text != [] {
      var init := text[..|text| - 1];
      assert text[|text| - 1] in text && forall c :: c in init ==> c in text;
      ValueOfFs(init);
    }
  }

  // The largest size there is: a chunk that announces it ends beyond every position.
  lemma LargestSizeOverflows(maxBodyBytes: nat)
    ensures Decoded(Utf8.Encode(LARGEST) + CRLF, maxBodyBytes) == Overflow
  {
    hide Utf8.Encode;
    hide ChunkSize;
    hide DecodedFrom;
    hide ValueOf;
    ValueOfFs(LARGEST);
    assert Fs(5) == 0xf_ffff && Fs(10) == 0xff_ffff_ffff && Fs(15) == 0xfff_ffff_ffff_ffff;
    assert Fs(16) == U64_LIMIT - 1;
    HexLine(LARGEST);
    var line := Utf8.Encode(LARGEST);
    var buf := line + CRLF;
    assert RenderChunks([]) + buf == buf && buf[0..|buf|] == buf;
    OverflowsFrom(buf, 0, [], line, [], maxBodyBytes);
  }

  // A plain chunk of n bytes costs at most 6n bytes on the wire.
  lemma PlainChunkCost(c: Chunk)
    requires PlainChunk(c) && |c.data| < U64_LIMIT
    ensures ValidChunk(c) && |RenderChunk(c)| <= 6 * |c.data|
  {
    hide ChunkSize;
    hide HexText;
    var lower := c.line == Utf8.Encode(HexText(|c.data|, LOWER_HEX));
    var alphabet := if lower then LOWER_HEX else UPPER_HEX;
    HexValue(|c.data|, alphabet);
    HexLine(HexText(|c.data|, alphabet));
  }

  // Why the wire limit is six times the body limit: no plain encoding is longer.
  lemma {:induction false} PlainCost(m: Message)
    requires Plain(m) && |Payload(m.chunks)| < U64_LIMIT
    ensures ValidMessage(m) && |Render(m)| <= 6 * |Payload(m.chunks)| + 5
    decreases |m.chunks|
  {
    hide ChunkSize;
    if m.chunks == [] {
      assert ValueOf("0", 16) == 0;
      HexLine("0");
    } else {
      PlainChunkCost(m.chunks[0]);
      PlainCost(m.(chunks := m.chunks[1..]));
    }
  }
}
