/**
 What holds of request reading over every fragmentation: a chunked body arrives whole, and a
 forwarded request is read back as itself.
 */
module HttpForwarding {
  import opened Results
  import opened Wire
  import opened Text
  import opened HttpHead
  import opened HttpRead
  import opened Json
  import Utf8
  import Chunked
  import Normalize
  import opened NormalizedShape

  // Every read returns between one byte and a full buffer.
  predicate WellCut(incoming: seq<Bytes>) {
    forall i :: 0 <= i < |incoming| ==> 0 < |incoming[i]| <= READ_SIZE
  }

  lemma NextRead(raw: Bytes, incoming: seq<Bytes>)
    requires WellCut(incoming) && incoming != []
    ensures !Ended(incoming) && WellCut(incoming[1..])
    ensures raw + incoming[0] + Concat(incoming[1..]) == raw + Concat(incoming)
  {}

  /* ----- heads ----- */

  // The size limit is looked at only between two reads: with `got` bytes read, does a read end
  // at or above the limit before a head of `size` bytes is whole?
  predicate CutsShort(got: nat, incoming: seq<Bytes>, size: nat)
    decreases |incoming|
  {
    got < size && (got >= MAX_HEADER_BYTES || (incoming != [] && CutsShort(got + |incoming[0]|, incoming[1..], size)))
  }

  lemma {:induction false} SmallHeadIsNeverCut(got: nat, incoming: seq<Bytes>, size: nat)
    requires size <= MAX_HEADER_BYTES
    ensures !CutsShort(got, incoming, size)
    decreases |incoming|
  {
    if incoming != [] {
      SmallHeadIsNeverCut(got + |incoming[0]|, incoming[1..], size);
    }
  }

  lemma {:induction false} CutHeadIsNotRead(raw: Bytes, incoming: seq<Bytes>, h: Head, more: Bytes)
    requires WellCut(incoming) && WellFormed(h) && CutsShort(|raw|, incoming, |PrintHead(h)|)
    requires raw + Concat(incoming) == PrintHead(h) + more
    ensures ReadHead(raw, incoming).result == Err(HeadTooLarge)
    decreases |incoming|
  {
    hide ParseHead;
    hide PrintHead;
    hide WellFormed;
    var all := PrintHead(h) + more;
    HeadRoundTrip(h, more);
    assert raw == all[..|raw|];
    HeadPrefixPartial(all, |raw|);
    if |raw| < MAX_HEADER_BYTES {
      NextRead(raw, incoming);
      CutHeadIsNotRead(raw + incoming[0], incoming[1..], h, more);
    }
  }

  lemma {:induction false} ReadsHead(raw: Bytes, incoming: seq<Bytes>, h: Head, more: Bytes)
    requires WellCut(incoming) && WellFormed(h) && !CutsShort(|raw|, incoming, |PrintHead(h)|)
    requires raw + Concat(incoming) == PrintHead(h) + more
    ensures var r := ReadHead(raw, incoming);
            && r.result.Ok? && r.result.value.end == |PrintHead(h)| && r.result.value.head == h
            && |PrintHead(h)| <= |r.result.value.raw|
            && r.result.value.raw + Concat(r.incoming) == PrintHead(h) + more
            && WellCut(r.incoming)
    decreases |incoming|
  {
    hide ParseHead;
    hide PrintHead;
    hide WellFormed;
    var all := PrintHead(h) + more;
    var n := |PrintHead(h)|;
    HeadRoundTrip(h, more);
    assert raw == all[..|raw|];
    if |raw| < n {
      HeadPrefixPartial(all, |raw|);
      assert incoming != [];
      NextRead(raw, incoming);
      ReadsHead(raw + incoming[0], incoming[1..], h, more);
    } else {
      HeadLocal(all, |raw|);
    }
  }

  // Reading a head loses nothing, and at most one read goes beyond its end.
  lemma {:induction false} HeadStream(raw: Bytes, incoming: seq<Bytes>)
    requires WellCut(incoming) && ReadHead(raw, incoming).result.Ok?
    ensures var r := ReadHead(raw, incoming);
            && r.result.value.raw + Concat(r.incoming) == raw + Concat(incoming)
            && WellCut(r.incoming)
            && (ParseHead(raw).Partial? ==> |r.result.value.raw| < r.result.value.end + READ_SIZE)
    decreases |incoming|
  {
    hide ParseHead;
    if ParseHead(raw).Partial? {
      NextRead(raw, incoming);
      HeadStream(raw + incoming[0], incoming[1..]);
      var next := raw + incoming[0];
      assert next[..|raw|] == raw;
      if ParseHead(next).Parsed? && ParseHead(next).end <= |raw| {
        HeadLocal(next, |raw|);
        assert false;
      }
    }
  }

  /* ----- bodies ----- */

  // The wire limit is looked at after every read and before decoding: with `got` bytes there,
  // does a read that starts short of `size` bytes end beyond the limit?
  predicate OverWire(got: nat, incoming: seq<Bytes>, size: nat, limit: nat)
    decreases |incoming|
  {
    got < size && incoming != []
    && (got + |incoming[0]| > limit || OverWire(got + |incoming[0]|, incoming[1..], size, limit))
  }

  // Not when all there is fits, nor when the bytes asked for end a full read below the limit.
  lemma {:induction false} NeverOverWire(got: nat, incoming: seq<Bytes>, size: nat, limit: nat)
    requires WellCut(incoming)
    requires got + |Concat(incoming)| <= limit || size + READ_SIZE <= limit + 1
    ensures !OverWire(got, incoming, size, limit)
    decreases |incoming|
  {
    if got < size && incoming != [] {
      NextRead([], incoming);
      NeverOverWire(got + |incoming[0]|, incoming[1..], size, limit);
    }
  }

  // What the decoder's answer on a whole stream means for the loop.
  function Verdict(start: Bytes, wire: Bytes, answer: Chunked.Answer): Result<BodyRead, Fault>
    requires answer.Complete? ==> answer.consumed <= |wire|
  {
    match answer
    case NeedMore => Err(UnexpectedEof)
    case Invalid(fault) => Err(BadChunk(fault))
    case Overflow => Err(ChunkOverflow)
    case Complete(consumed, body) => Ok(BodyRead(start + wire[..consumed], body))
  }

  // `decided` bytes of the stream are the fewest that get an answer, or one more than there are.
  ghost predicate DecidedAt(wire: Bytes, maxBodyBytes: nat, decided: nat) {
    && decided <= |wire| + 1
    && (forall n :: 0 <= n < decided && n <= |wire| ==> Chunked.Decoded(wire[..n], maxBodyBytes) == Chunked.NeedMore)
    && (decided <= |wire| ==> Chunked.Decoded(wire[..decided], maxBodyBytes) != Chunked.NeedMore)
  }

  lemma {:induction false} SomewhereDecided(wire: Bytes, maxBodyBytes: nat, from: nat) returns (decided: nat)
    requires from <= |wire| + 1
    requires forall n :: 0 <= n < from && n <= |wire| ==> Chunked.Decoded(wire[..n], maxBodyBytes) == Chunked.NeedMore
    ensures DecidedAt(wire, maxBodyBytes, decided)
    decreases |wire| + 1 - from
  {
    hide Chunked.Decoded;
    if from == |wire| + 1 || Chunked.Decoded(wire[..from], maxBodyBytes) != Chunked.NeedMore {
      decided := from;
    } else {
      decided := SomewhereDecided(wire, maxBodyBytes, from + 1);
    }
  }

  // A prefix is answered like the whole stream or not at all.
  lemma PrefixAnswer(wire: Bytes, maxBodyBytes: nat, decided: nat, n: nat)
    requires DecidedAt(wire, maxBodyBytes, decided) && n <= |wire|
    ensures Chunked.Decoded(wire[..n], maxBodyBytes)
            == if n < decided then Chunked.NeedMore else Chunked.Decoded(wire, maxBodyBytes)
  {
    hide Chunked.Decoded;
    if n >= decided {
      var first := wire[..decided];
      assert wire[..n] == first + wire[decided..n] && wire == first + wire[decided..];
      Chunked.DecoderStable(first, wire[decided..n], maxBodyBytes);
      Chunked.DecoderStable(first, wire[decided..], maxBodyBytes);
    }
  }

  lemma DecidedIs(wire: Bytes, maxBodyBytes: nat, decided: nat)
    requires DecidedAt(wire, maxBodyBytes, decided) && |wire| < U64_LIMIT
    ensures var answer := Chunked.Decoded(wire, maxBodyBytes);
            && (answer.NeedMore? <==> decided == |wire| + 1)
            && (answer.Complete? ==> answer.consumed == decided <= |wire|)
  {
    hide Chunked.Decoded;
    assert wire[..|wire|] == wire;
    PrefixAnswer(wire, maxBodyBytes, decided, |wire|);
    PrefixAnswer(wire, maxBodyBytes, decided, if decided <= |wire| then decided else 0);
    var answer := Chunked.Decoded(wire, maxBodyBytes);
    if answer.Complete? {
      Chunked.CompleteIsTight(wire, maxBodyBytes, decided);
      Chunked.DecoderLocal(wire, maxBodyBytes, answer.consumed);
    }
  }

  // Every stream, cut in any way, gets the answer its bytes get as a whole, unless a read that
  // starts before that answer is known ends beyond the wire limit.
  lemma {:induction false} ReadsAnyChunked(raw: Bytes, end: nat, limits: Limits, incoming: seq<Bytes>, wire: Bytes,
                                           decided: nat)
    requires WellCut(incoming) && end <= |raw| && raw[end..] + Concat(incoming) == wire
    requires |wire| < U64_LIMIT && DecidedAt(wire, limits.body, decided)
    ensures Chunked.Decoded(wire, limits.body).Complete? ==> Chunked.Decoded(wire, limits.body).consumed <= |wire|
    ensures ReadChunked(raw, end, limits, incoming).result
            == if OverWire(|raw| - end, incoming, decided, limits.wire) then Err(WireTooLarge)
               else Verdict(raw[..end], wire, Chunked.Decoded(wire, limits.body))
    decreases |incoming|
  {
    hide Chunked.Decoded;
    hide DecidedAt;
    var cur := raw[end..];
    assert cur == wire[..|cur|];
    PrefixAnswer(wire, limits.body, decided, |cur|);
    DecidedIs(wire, limits.body, decided);
    if |cur| < decided {
      if incoming != [] {
        NextRead(cur, incoming);
        var next := raw + incoming[0];
        assert next[end..] == cur + incoming[0];
        assert next[..end] == raw[..end];
        if |next| - end <= limits.wire {
          ReadsAnyChunked(next, end, limits, incoming[1..], wire, decided);
        }
      } else {
        assert cur == wire;
      }
    } else if Chunked.Decoded(wire, limits.body).Complete? {
      assert raw[..end + decided] == raw[..end] + wire[..decided];
    }
  }

  // So a stream that starts with a complete encoding yields its body and exactly its encoding.
  lemma ReadsChunked(raw: Bytes, end: nat, limits: Limits, incoming: seq<Bytes>, wire: Bytes)
    requires WellCut(incoming) && end <= |raw| && raw[end..] + Concat(incoming) == wire
    requires |wire| < U64_LIMIT && Chunked.Decoded(wire, limits.body).Complete?
    ensures var c := Chunked.Decoded(wire, limits.body);
            c.consumed <= |wire|
            && ReadChunked(raw, end, limits, incoming).result
               == if OverWire(|raw| - end, incoming, c.consumed, limits.wire) then Err(WireTooLarge)
                  else Ok(BodyRead(raw[..end] + wire[..c.consumed], c.body))
  {
    hide Chunked.Decoded;
    hide ReadChunked;
    var decided := SomewhereDecided(wire, limits.body, 0);
    DecidedIs(wire, limits.body, decided);
    ReadsAnyChunked(raw, end, limits, incoming, wire, decided);
  }

  // Byte by byte.
  function Singles(bytes: Bytes): (r: seq<Bytes>) {
    seq(|bytes|, i requires 0 <= i < |bytes| => [bytes[i]])
  }

  lemma {:induction false} SinglesAreAll(bytes: Bytes)
    ensures WellCut(Singles(bytes)) && Concat(Singles(bytes)) == bytes
    decreases |bytes|
  {
    if bytes != [] {
      SinglesAreAll(bytes[1..]);
      assert Singles(bytes)[1..] == Singles(bytes[1..]);
      assert bytes == [bytes[0]] + bytes[1..];
    }
  }

  lemma {:induction false} SinglesThen(got: nat, bytes: Bytes, last: Bytes, size: nat, limit: nat)
    requires got + |bytes| <= limit && 0 < |last| <= READ_SIZE
    ensures var incoming := Singles(bytes) + [last];
            && WellCut(incoming) && Concat(incoming) == bytes + last
            && (OverWire(got, incoming, size, limit) <==> got + |bytes| < size && got + |bytes| + |last| > limit)
    decreases |bytes|
  {
    var incoming := Singles(bytes) + [last];
    if bytes == [] {
      assert incoming == [last] && incoming[1..] == [];
      assert last + [] == last && [] + last == last;
    } else {
      SinglesThen(got + 1, bytes[1..], last, size, limit);
      assert incoming[1..] == Singles(bytes[1..]) + [last];
      assert incoming[0] == [bytes[0]];
      assert bytes + last == [bytes[0]] + (bytes[1..] + last);
    }
  }

  // An empty body whose encoding fills the wire limit with a chunk extension.
  function Extended(wire: nat): (r: Chunked.Message)
    requires wire >= 6
  {
    Chunked.Message([], Utf8.Encode("0;" + Repeated('x', wire - 6)), CRLF)
  }

  function Repeated(c: char, n: nat): (r: string)
    ensures |r| == n && forall i :: 0 <= i < n ==> r[i] == c
  {
    seq(n, _ => c)
  }

  lemma ExtendedIsValid(wire: nat)
    requires wire >= 6
    ensures Chunked.ValidMessage(Extended(wire)) && |Chunked.Render(Extended(wire))| == wire
  {
    hide IndexOf;
    hide Utf8.Decode;
    hide Utf8.Encode;
    hide Trim;
    var text := "0;" + Repeated('x', wire - 6);
    Utf8.EncodeAscii(text);
    Utf8.RoundTrip(text);
    var line := Utf8.Encode(text);
    forall i | 0 <= i < |line| ensures line[i] != LF {
      assert text[i] == '0' || text[i] == ';' || text[i] == 'x';
    }
    NoLfIsLine(line);
    IndexOfIs(text, ';', 1);
    assert BeforeFirst(text, ';') == "0";
    TrimNoSpace("0");
    assert ValueOf("0", 16) == 0;
    assert Chunked.ChunkSize(line) == Ok(0);
  }

  // The last byte of an encoding that fills the limit, read alone or together with a byte
  // pipelined behind it: one stream, two answers.
  lemma PipelinedByteDecides(limits: Limits, pipelined: Byte)
    requires 6 <= limits.wire < U64_LIMIT - 1
    ensures var wire := Chunked.Render(Extended(limits.wire));
            var apart := Singles(wire) + [[pipelined]];
            var together := Singles(wire[..|wire| - 1]) + [[wire[|wire| - 1], pipelined]];
            && |wire| == limits.wire && WellCut(apart) && WellCut(together) && Concat(apart) == Concat(together)
            && ReadChunked([], 0, limits, apart).result == Ok(BodyRead(wire, []))
            && ReadChunked([], 0, limits, together).result == Err(WireTooLarge)
  {
    hide Chunked.Decoded;
    hide Chunked.Render;
    hide Chunked.ValidMessage;
    hide ReadChunked;
    hide Singles;
    hide Concat;
    hide WellCut;
    hide OverWire;
    var m := Extended(limits.wire);
    ExtendedIsValid(limits.wire);
    hide Extended;
    var wire, n := Chunked.Render(m), limits.wire;
    var all := wire + [pipelined];
    Chunked.RenderedDecodes(m, [pipelined], limits.body);
    SinglesThen(0, wire, [pipelined], n, n);
    assert wire[..n - 1] + [wire[n - 1], pipelined] == all;
    SinglesThen(0, wire[..n - 1], [wire[n - 1], pipelined], n, n);
    var apart, together := Singles(wire) + [[pipelined]], Singles(wire[..n - 1]) + [[wire[n - 1], pipelined]];
    var nothing: Bytes := [];
    assert nothing[0..] + Concat(apart) == all && nothing[0..] + Concat(together) == all;
    ReadsChunked([], 0, limits, apart, all);
    ReadsChunked([], 0, limits, together, all);
    assert [] + all[..n] == wire;
  }

  lemma {:induction false} ReadsSized(raw: Bytes, end: nat, bodyEnd: nat, incoming: seq<Bytes>, body: Bytes)
    requires WellCut(incoming) && end <= |raw| && bodyEnd == end + |body|
    requires body <= raw[end..] + Concat(incoming)
    ensures ReadSized(raw, end, bodyEnd, incoming).result == Ok(BodyRead(raw[..end] + body, body))
    decreases |incoming|
  {
    if |raw| < bodyEnd {
      assert incoming != [];
      NextRead(raw[end..], incoming);
      var next := raw + incoming[0];
      assert next[end..] == raw[end..] + incoming[0];
      assert next[..end] == raw[..end];
      ReadsSized(next, end, bodyEnd, incoming[1..], body);
    } else {
      assert body == raw[end..bodyEnd];
      assert raw[..bodyEnd] == raw[..end] + body;
    }
  }

  // A chunked body that was read decodes, on its own, to the same body, within the wire limit.
  lemma {:induction false} ChunkedWasRead(raw: Bytes, end: nat, limits: Limits, incoming: seq<Bytes>)
    requires end <= |raw| && |raw| + |Concat(incoming)| < U64_LIMIT && |raw| - end <= limits.wire
    requires ReadChunked(raw, end, limits, incoming).result.Ok?
    ensures var r := ReadChunked(raw, end, limits, incoming).result.value;
            && end <= |r.raw| && |r.raw| - end <= limits.wire
            && |r.raw| <= |raw| + |Concat(incoming)|
            && Chunked.Decoded(r.raw[end..], limits.body) == Chunked.Complete(|r.raw| - end, r.body)
    decreases |incoming|
  {
    hide Chunked.Decoded;
    match Chunked.Decoded(raw[end..], limits.body) {
      case Complete(consumed, body) =>
        Chunked.CompleteIsTight(raw[end..], limits.body, 0);
        Chunked.DecoderLocal(raw[end..], limits.body, consumed);
        assert raw[..end + consumed][end..] == raw[end..][..consumed];
      case Invalid(_) =>
      case NeedMore => ChunkedWasRead(raw + incoming[0], end, limits, incoming[1..]);
    }
  }

  /* ----- a chunked body arrives whole ----- */

  // Whatever the split into chunks and into reads, and whatever follows on the connection: the
  // loop returns exactly the payload, keeps exactly its encoding, and stays below the wire limit.
  lemma PlainBodyArrives(raw: Bytes, end: nat, limits: Limits, incoming: seq<Bytes>, m: Chunked.Message, more: Bytes)
    requires WellCut(incoming) && end <= |raw|
    requires Chunked.Plain(m) && |Chunked.Payload(m.chunks)| <= limits.body
    requires limits.body < U64_LIMIT && limits.wire == WireLimit(limits.body)
    requires raw[end..] + Concat(incoming) == Chunked.Render(m) + more
    requires |Chunked.Render(m) + more| < U64_LIMIT
    ensures ReadChunked(raw, end, limits, incoming).result
            == Ok(BodyRead(raw[..end] + Chunked.Render(m), Chunked.Payload(m.chunks)))
    ensures |Chunked.Render(m)| <= 6 * |Chunked.Payload(m.chunks)| + 5
  {
    hide Chunked.Decoded;
    hide Chunked.Render;
    hide Chunked.Plain;
    hide ReadChunked;
    Chunked.PlainCost(m);
    var wire := Chunked.Render(m) + more;
    Chunked.RenderedDecodes(m, more, limits.body);
    NeverOverWire(|raw| - end, incoming, |Chunked.Render(m)|, limits.wire);
    ReadsChunked(raw, end, limits, incoming, wire);
    assert wire[..|Chunked.Render(m)|] == Chunked.Render(m);
  }

  // Reading a request from its start, up to the end of its head.
  lemma ReadsWholeHead(incoming: seq<Bytes>, h: Head, rest: Bytes)
    requires WellCut(incoming) && WellFormed(h) && !CutsShort(0, incoming, |PrintHead(h)|)
    requires Concat(incoming) == PrintHead(h) + rest
    ensures var r := ReadHead([], incoming);
            && r.result.Ok? && r.result.value.end == |PrintHead(h)| && r.result.value.head == h
            && |PrintHead(h)| <= |r.result.value.raw| && r.result.value.raw[..|PrintHead(h)|] == PrintHead(h)
            && r.result.value.raw[|PrintHead(h)|..] + Concat(r.incoming) == rest
            && PrintHead(h) <= r.result.value.raw && r.result.value.raw + Concat(r.incoming) == PrintHead(h) + rest
            && WellCut(r.incoming)
  {
    hide PrintHead;
    hide WellFormed;
    hide ReadHead;
    hide CutsShort;
    assert [] + Concat(incoming) == Concat(incoming);
    ReadsHead([], incoming, h, rest);
    var r := ReadHead([], incoming);
    var raw, end := r.result.value.raw, |PrintHead(h)|;
    assert (raw + Concat(r.incoming))[..end] == raw[..end];
    assert (raw + Concat(r.incoming))[end..] == raw[end..] + Concat(r.incoming);
  }

  // Any chunked request, whole or broken: what the bytes behind its head decode to decides, or the
  // wire limit does.
  lemma AnyChunkedRequest(incoming: seq<Bytes>, codec: Codec, h: Head, rest: Bytes, decided: nat)
    requires WellCut(incoming) && WellFormed(h) && !CutsShort(0, incoming, |PrintHead(h)|)
    requires FramingOf(h.headers).Some? && FramingOf(h.headers).value.chunked
    requires Concat(incoming) == PrintHead(h) + rest && |Concat(incoming)| < U64_LIMIT
    requires DecidedAt(rest, BodyLimits(h.path).body, decided)
    ensures var r := ReadHead([], incoming);
            var limits := BodyLimits(h.path);
            var answer := Chunked.Decoded(rest, limits.body);
            && r.result.Ok? && |PrintHead(h)| <= |r.result.value.raw|
            && (answer.Complete? ==> answer.consumed <= |rest|)
            && var over := OverWire(|r.result.value.raw| - |PrintHead(h)|, r.incoming, decided, limits.wire);
               var read := Verdict(PrintHead(h), rest, answer);
               Accept(incoming, codec).result
               == if over then Err(WireTooLarge)
                  else if read.Err? then Err(read.error)
                  else Rebuild(h, |PrintHead(h)|, FramingOf(h.headers).value.expects, read.value, codec)
  {
    hide PrintHead;
    hide WellFormed;
    hide FramingOf;
    hide BodyLimits;
    hide ReadHead;
    hide ReadChunked;
    hide Chunked.Decoded;
    hide DecidedAt;
    hide OverWire;
    hide Rebuild;
    hide CutsShort;
    ReadsWholeHead(incoming, h, rest);
    var r := ReadHead([], incoming);
    ReadsAnyChunked(r.result.value.raw, |PrintHead(h)|, BodyLimits(h.path), r.incoming, rest, decided);
  }

  // A whole chunked request, over every split and every fragmentation: what is rebuilt is its
  // head and its payload, and what is pipelined behind it stays out.
  lemma ChunkedRequestArrives(incoming: seq<Bytes>, codec: Codec, h: Head, m: Chunked.Message, more: Bytes)
    requires WellCut(incoming) && WellFormed(h) && !CutsShort(0, incoming, |PrintHead(h)|)
    requires FramingOf(h.headers).Some? && FramingOf(h.headers).value.chunked
    requires Chunked.Plain(m) && |Chunked.Payload(m.chunks)| <= BodyLimits(h.path).body
    requires Concat(incoming) == PrintHead(h) + (Chunked.Render(m) + more) && |Concat(incoming)| < U64_LIMIT
    ensures Accept(incoming, codec).result
            == Rebuild(h, |PrintHead(h)|, FramingOf(h.headers).value.expects,
                       BodyRead(PrintHead(h) + Chunked.Render(m), Chunked.Payload(m.chunks)), codec)
  {
    hide PrintHead;
    hide WellFormed;
    hide FramingOf;
    hide BodyLimits;
    hide ReadHead;
    hide ReadChunked;
    hide Chunked.Render;
    hide Chunked.Plain;
    hide Chunked.Payload;
    hide Rebuild;
    hide CutsShort;
    var rest := Chunked.Render(m) + more;
    ReadsWholeHead(incoming, h, rest);
    var r := ReadHead([], incoming);
    var raw, end := r.result.value.raw, |PrintHead(h)|;
    PlainBodyArrives(raw, end, BodyLimits(h.path), r.incoming, m, more);
  }

  // The same for a body of a stated length, empty when no header states one.
  lemma SizedRequestArrives(incoming: seq<Bytes>, codec: Codec, h: Head, body: Bytes, more: Bytes)
    requires WellCut(incoming) && WellFormed(h) && !CutsShort(0, incoming, |PrintHead(h)|)
    requires FramingOf(h.headers).Some? && !FramingOf(h.headers).value.chunked
    requires |body| == FramingOf(h.headers).value.contentLength.GetOr(0) <= BodyLimits(h.path).body
    requires Concat(incoming) == PrintHead(h) + (body + more)
    ensures Accept(incoming, codec).result
            == Rebuild(h, |PrintHead(h)|, FramingOf(h.headers).value.expects,
                       BodyRead(PrintHead(h) + body, body), codec)
  {
    hide PrintHead;
    hide WellFormed;
    hide FramingOf;
    hide BodyLimits;
    hide ReadHead;
    hide ReadSized;
    hide Rebuild;
    hide CutsShort;
    var rest := body + more;
    ReadsWholeHead(incoming, h, rest);
    var r := ReadHead([], incoming);
    var raw, end := r.result.value.raw, |PrintHead(h)|;
    if FramingOf(h.headers).value.contentLength.Some? {
      ReadsSized(raw, end, end + |body|, r.incoming, body);
    } else {
      assert body == [];
      assert PrintHead(h) + body == PrintHead(h);
    }
  }

  /* ----- the forwarded headers frame the forwarded body ----- */

  lemma ReadableFolds(f: Framing, h: Header)
    requires Fold(f, h).Some?
    ensures Fold(f, Readable(h)) == Fold(f, h) && KindOf(Readable(h)) == KindOf(h)
    ensures Readable(Readable(h)) == Readable(h)
  {
    hide ParseUnsigned;
    hide Trim;
    hide Split;
    hide ListHas;
    assert ValueText(Readable(h).value) == ValueText(h.value);
  }

  // Dropping the Expect headers, when the last one asks for an interim response, or keeping them
  // when it does not, leaves the rest of the framing as it was and nothing expected.
  lemma {:induction false} KeptFolds(f: Framing, g: Framing, headers: seq<Header>, stripExpect: bool)
    requires FoldAll(f, headers).Some?
    requires g == if stripExpect then f.(expects := false) else f
    ensures FoldAll(g, Kept(headers, stripExpect, false))
            == Some(if stripExpect then FoldAll(f, headers).value.(expects := false) else FoldAll(f, headers).value)
    decreases |headers|
  {
    hide KindOf;
    hide ParseUnsigned;
    hide Readable;
    hide ListHas;
    hide Split;
    hide ValueText;
    hide Trim;
    if headers != [] {
      var h := headers[0];
      var rest := Kept(headers[1..], stripExpect, false);
      var next := Fold(f, h).value;
      ReadableFolds(f, h);
      var nextG := if stripExpect then next.(expects := false) else next;
      KeptFolds(next, nextG, headers[1..], stripExpect);
      if !Dropped(KindOf(h), stripExpect, false) {
        assert Fold(g, h) == Some(nextG);
        ReadableFolds(g, h);
        assert ([Readable(h)] + rest)[1..] == rest;
      }
    }
  }

  // Without Content-Length and Transfer-Encoding headers nothing is framed.
  lemma {:induction false} KeptUnframed(f: Framing, g: Framing, headers: seq<Header>, stripExpect: bool)
    requires FoldAll(f, headers).Some?
    requires g.expects == (f.expects && !stripExpect)
    ensures FoldAll(g, Kept(headers, stripExpect, true))
            == Some(g.(expects := FoldAll(f, headers).value.expects && !stripExpect))
    decreases |headers|
  {
    hide KindOf;
    hide ParseUnsigned;
    hide Readable;
    hide ListHas;
    hide Split;
    hide ValueText;
    hide Trim;
    if headers != [] {
      var h := headers[0];
      var rest := Kept(headers[1..], stripExpect, true);
      var next := Fold(f, h).value;
      if Dropped(KindOf(h), stripExpect, true) {
        KeptUnframed(next, g, headers[1..], stripExpect);
      } else {
        var nextG := Fold(g, h).value;
        KeptUnframed(next, nextG, headers[1..], stripExpect);
        ReadableFolds(g, h);
        assert ([Readable(h)] + rest)[1..] == rest;
      }
    }
  }

  lemma {:induction false} FoldAppend(f: Framing, a: seq<Header>, b: seq<Header>)
    requires FoldAll(f, a).Some?
    ensures FoldAll(f, a + b) == FoldAll(FoldAll(f, a).value, b)
    decreases |a|
  {
    hide Fold;
    if a == [] {
      assert a + b == b;
    } else {
      assert (a + b)[1..] == a[1..] + b;
      FoldAppend(Fold(f, a[0]).value, a[1..], b);
    }
  }

  lemma OwnNames(n: nat)
    ensures KindOf(CLOSE) == Connection && KindOf(LengthHeader(n)) == ContentLength
    ensures CLOSE.value == [99, 108, 111, 115, 101]
  {
    hide Decimal;
    assert Lower("Connection") == "connection";
    assert Lower("Content-Length") == "content-length";
  }

  lemma OwnHeaders(n: nat)
    requires n < U64_LIMIT
    ensures KindOf(CLOSE) == Connection && KindOf(LengthHeader(n)) == ContentLength
    ensures forall f :: Fold(f, LengthHeader(n)) == Some(f.(contentLength := Some(n)))
    ensures Readable(LengthHeader(n)) == LengthHeader(n)
    ensures WellFormedHeader(CLOSE) && WellFormedHeader(LengthHeader(n))
  {
    OwnNames(n);
    OwnValues(n);
    hide CLOSE;
    hide Decimal;
    hide ParseUnsigned;
    hide Trim;
    hide KindOf;
    hide Utf8.Encode;
    hide Utf8.Decode;
    hide WellFormedHeader;
    DecimalTrimmed(n);
    DecimalRoundTrip(n, U64_LIMIT);
    assert LengthHeader(n).value == Utf8.Encode(Decimal(n));
    Utf8.RoundTrip(Decimal(n));
  }

  lemma OwnValues(n: nat)
    ensures WellFormedHeader(CLOSE) && WellFormedHeader(LengthHeader(n))
  {
    hide Decimal;
    hide Utf8.Encode;
    DecimalIsValue(n);
    OwnNames(n);
  }

  lemma DecimalIsValue(n: nat)
    ensures IsValue(Utf8.Encode(Decimal(n))) && NoOuterBlanks(Utf8.Encode(Decimal(n)))
  {
    hide Decimal;
    var s := Decimal(n);
    var v := Utf8.Encode(s);
    Utf8.EncodeAscii(s);
    forall i | 0 <= i < |v| ensures 48 <= v[i] <= 57 {
      assert s[i] in s;
    }
  }

  // The headers of a forwarded request frame exactly what follows them, and ask for nothing.
  lemma ForwardedFraming(head: Head, path: string, rewritten: Option<Bytes>)
    requires FramingOf(head.headers).Some?
    requires rewritten.Some? ==> |rewritten.value| < U64_LIMIT
    ensures var framing := FramingOf(head.headers).value;
            var f := ForwardedHead(head, framing.expects, path, rewritten);
            FramingOf(f.headers)
            == Some(if rewritten.Some? then Framing(Some(|rewritten.value|), false, false)
                    else framing.(expects := false))
  {
    hide FoldAll;
    hide KindOf;
    hide LengthHeader;
    hide CLOSE;
    var expects := FramingOf(head.headers).value.expects;
    var kept := Kept(head.headers, expects, rewritten.Some?);
    if rewritten.Some? {
      OwnHeaders(|rewritten.value|);
      KeptUnframed(UNFRAMED, UNFRAMED, head.headers, expects);
      FoldAppend(UNFRAMED, kept, [LengthHeader(|rewritten.value|)]);
      FoldOne(UNFRAMED, LengthHeader(|rewritten.value|));
      FoldAppend(UNFRAMED, kept + [LengthHeader(|rewritten.value|)], [CLOSE]);
      FoldOne(Framing(Some(|rewritten.value|), false, false), CLOSE);
    } else {
      OwnHeaders(0);
      KeptFolds(UNFRAMED, UNFRAMED, head.headers, expects);
      assert kept + [] == kept;
      FoldAppend(UNFRAMED, kept, [CLOSE]);
      FoldOne(FoldAll(UNFRAMED, kept).value, CLOSE);
    }
  }

  lemma FoldOne(f: Framing, h: Header)
    ensures FoldAll(f, [h]) == Fold(f, h)
  {
    hide Fold;
    assert [h][1..] == [];
    if Fold(f, h).Some? {
      assert FoldAll(Fold(f, h).value, []) == Fold(f, h);
    }
  }

  // Rebuilding the headers of a forwarded request gives them back.
  lemma {:induction false} KeptStays(headers: seq<Header>, stripExpect: bool, rewritten: bool)
    ensures Kept(Kept(headers, stripExpect, rewritten), false, false) == Kept(headers, stripExpect, rewritten)
    decreases |headers|
  {
    hide KindOf;
    hide Readable;
    if headers != [] {
      KeptStays(headers[1..], stripExpect, rewritten);
      if !Dropped(KindOf(headers[0]), stripExpect, rewritten) {
        ReadableStays(headers[0]);
        var rest := Kept(headers[1..], stripExpect, rewritten);
        assert ([Readable(headers[0])] + rest)[1..] == rest;
      }
    }
  }

  lemma ReadableStays(h: Header)
    ensures Readable(Readable(h)) == Readable(h) && KindOf(Readable(h)) == KindOf(h)
  {}

  lemma {:induction false} KeptAppend(a: seq<Header>, b: seq<Header>)
    ensures Kept(a + b, false, false) == Kept(a, false, false) + Kept(b, false, false)
    decreases |a|
  {
    hide KindOf;
    hide Readable;
    if a == [] {
      assert a + b == b;
    } else {
      assert (a + b)[1..] == a[1..] + b;
      KeptAppend(a[1..], b);
    }
  }

  lemma ForwardedHeadStays(head: Head, stripExpect: bool, path: string, rewritten: Option<Bytes>)
    requires rewritten.Some? ==> |rewritten.value| < U64_LIMIT
    ensures var f := ForwardedHead(head, stripExpect, path, rewritten);
            ForwardedHead(f, false, path, None) == f
  {
    hide KindOf;
    hide Readable;
    hide LengthHeader;
    hide CLOSE;
    hide Kept;
    var kept := Kept(head.headers, stripExpect, rewritten.Some?);
    var length := if rewritten.Some? then [LengthHeader(|rewritten.value|)] else [];
    var f := ForwardedHead(head, stripExpect, path, rewritten);
    assert Kept(f.headers, false, false) == kept + length by {
      KeptStays(head.headers, stripExpect, rewritten.Some?);
      KeptAppend(kept + length, [CLOSE]);
      KeptAppend(kept, length);
      OwnHeaders(if rewritten.Some? then |rewritten.value| else 0);
      KeptSmall(CLOSE);
      if rewritten.Some? {
        KeptSmall(LengthHeader(|rewritten.value|));
      }
      assert Kept([], false, false) == [];
      assert kept + length + [] == kept + length;
    }
    assert kept + length + [] + [CLOSE] == f.headers;
  }

  lemma KeptSmall(h: Header)
    ensures Kept([], false, false) == []
    ensures Kept([h], false, false) == if KindOf(h) == Connection then [] else [Readable(h)]
  {
    hide KindOf;
    hide Readable;
    assert [h][1..] == [];
  }

  lemma {:induction false} KeptWellFormed(headers: seq<Header>, stripExpect: bool, rewritten: bool)
    requires forall i :: 0 <= i < |headers| ==> WellFormedHeader(headers[i])
    ensures forall i :: 0 <= i < |Kept(headers, stripExpect, rewritten)| ==>
              WellFormedHeader(Kept(headers, stripExpect, rewritten)[i])
    decreases |headers|
  {
    hide KindOf;
    hide WellFormedHeader;
    if headers != [] {
      KeptWellFormed(headers[1..], stripExpect, rewritten);
      ReadableWellFormed(headers[0]);
    }
  }

  lemma ReadableWellFormed(h: Header)
    requires WellFormedHeader(h)
    ensures WellFormedHeader(Readable(h))
  {}

  /* ----- forwarding is a fixed point ----- */

  // The codec reads a re-serialised body back as the value it was printed from.
  predicate ReadsBack(f: Forward, codec: Codec) {
    f.rewritten ==> f.body != [] && codec.parse(f.body) == f.json
  }

  // The forwarded request as it is read again when nothing is left to do: the same head, body and
  // JSON, neither normalised nor adapted.
  function Settled(f: Forward): Forward {
    f.(rewritten := false, adapter := Normalize.NoAdapter)
  }

  // The two limits a rebuilt request can exceed: it gains up to two headers, and
  // re-serialised JSON can be longer than what was read.
  predicate Readmissible(f: Forward) {
    && |f.head.headers| <= MAX_HEADERS
    && (f.rewritten ==> |f.body| <= BodyLimits(f.head.path).body)
  }

  // Normalisation keeps the path printable and its limits.
  lemma NormalizedPath(path: string, body: Json)
    requires IsPath(path) && Normalize.Normalize(path, body).Ok?
    ensures IsPath(Normalize.Normalize(path, body).value.path)
    ensures BodyLimits(Normalize.Normalize(path, body).value.path) == BodyLimits(path)
  {
    hide Normalize.Translated;
    hide Normalize.PathOnly;
    var n := Normalize.Normalize(path, body).value;
    if n.path != path {
      Normalize.RewrittenPathOnly(path, "/v1/chat/completions");
      RewrittenIsPath(path);
    }
  }

  lemma RewrittenIsPath(path: string)
    requires IsPath(path)
    ensures IsPath(Normalize.RewritePath(path, "/v1/chat/completions"))
  {
    var prefix := "/v1/chat/completions";
    assert forall i :: 0 <= i < |prefix| ==> prefix[i] > ' ' && prefix[i] as int != 127;
    var i := IndexOf(path, '?');
    assert forall c :: c in path[i..] ==> c in path;
  }

  // What a successful read tells about the forwarded request.
  datatype Reading = Reading(head: HeadRead, framing: Framing, read: BodyRead)

  lemma ReadingOf(incoming: seq<Bytes>, codec: Codec) returns (r: Reading)
    requires WellCut(incoming) && |Concat(incoming)| < U64_LIMIT
    requires Accept(incoming, codec).result.Ok?
    ensures r.head.end <= |r.read.raw| && WellFormed(r.head.head)
    ensures FramingOf(r.head.head.headers) == Some(r.framing)
    ensures Rebuild(r.head.head, r.head.end, r.framing.expects, r.read, codec) == Accept(incoming, codec).result
    ensures var wire := r.read.raw[r.head.end..];
            var limits := BodyLimits(r.head.head.path);
            if r.framing.chunked then
              |wire| <= limits.wire && Chunked.Decoded(wire, limits.body) == Chunked.Complete(|wire|, r.read.body)
            else if r.framing.contentLength.Some? then
              |wire| == r.framing.contentLength.value <= limits.body && r.read.body == wire
            else wire == [] && r.read.body == []
    ensures |r.read.raw| < U64_LIMIT
  {
    hide ParseHead;
    hide FramingOf;
    hide BodyLimits;
    hide Rebuild;
    hide WellFormed;
    hide Chunked.Decoded;
    hide ReadHead;
    hide ReadChunked;
    hide ReadSized;
    var h := ReadHead([], incoming);
    HeadIsInside([], incoming);
    EmptyIsPartial();
    HeadStream([], incoming);
    assert [] + Concat(incoming) == Concat(incoming);
    ParsedIsWellFormed(h.result.value.raw);
    var start := h.result.value;
    var framing := FramingOf(start.head.headers).value;
    var limits := BodyLimits(start.head.path);
    BodyKeepsHead(start.raw, start.end, framing, limits, h.incoming);
    var body := ReadBody(start.raw, start.end, framing, limits, h.incoming).result.value;
    r := Reading(start, framing, body);
    if framing.chunked {
      ChunkedWasRead(start.raw, start.end, limits, h.incoming);
    } else if framing.contentLength.Some? {
      SizedKeepsHead(start.raw, start.end, start.end + framing.contentLength.value, h.incoming);
      SizedInside(start.raw, start.end, start.end + framing.contentLength.value, h.incoming);
    }
  }

  lemma EmptyIsPartial()
    ensures ParseHead([]).Partial?
  {
    hide RequestLine;
    assert FirstMatch([], CRLF, 0) == None;
  }

  lemma {:induction false} SizedInside(raw: Bytes, end: nat, bodyEnd: nat, incoming: seq<Bytes>)
    requires end <= bodyEnd && ReadSized(raw, end, bodyEnd, incoming).result.Ok?
    ensures bodyEnd <= |raw| + |Concat(incoming)|
    decreases |incoming|
  {
    if |raw| < bodyEnd {
      SizedInside(raw + incoming[0], end, bodyEnd, incoming[1..]);
    }
  }

  // A reading and the request rebuilt from it.
  ghost predicate Rebuilt(r: Reading, f: Forward, codec: Codec) {
    && r.head.end <= |r.read.raw| < U64_LIMIT && WellFormed(r.head.head)
    && FramingOf(r.head.head.headers) == Some(r.framing)
    && Rebuild(r.head.head, r.head.end, r.framing.expects, r.read, codec) == Ok(f)
    && |f.body| < U64_LIMIT
    && var wire := r.read.raw[r.head.end..];
       var limits := BodyLimits(r.head.head.path);
       if r.framing.chunked then
         |wire| <= limits.wire && Chunked.Decoded(wire, limits.body) == Chunked.Complete(|wire|, r.read.body)
       else if r.framing.contentLength.Some? then
         |wire| == r.framing.contentLength.value <= limits.body && r.read.body == wire
       else wire == [] && r.read.body == []
  }

  lemma RebuiltHead(r: Reading, f: Forward, codec: Codec)
    requires Rebuilt(r, f, codec)
    ensures WellFormedButForCount(f.head) && BodyLimits(f.head.path) == BodyLimits(r.head.head.path)
    ensures !f.rewritten ==> f.body == r.read.raw[r.head.end..]
    ensures f.head == ForwardedHead(r.head.head, r.framing.expects, f.head.path,
                                    if f.rewritten then Some(f.body) else None)
  {
    hide Normalize.Normalize;
    hide WellFormedHeader;
    hide LengthHeader;
    hide CLOSE;
    hide Kept;
    hide FramingOf;
    hide BodyLimits;
    hide IsPath;
    hide Chunked.Decoded;
    var head := r.head.head;
    var parsed := if r.read.body == [] then None else codec.parse(r.read.body);
    if parsed.Some? {
      NormalizedPath(head.path, parsed.value);
    }
    KeptWellFormed(head.headers, r.framing.expects, f.rewritten);
    OwnHeaders(|f.body|);
  }

  // The framing of the forwarded head delivers the forwarded body, decoded as before.
  lemma BodyAgain(r: Reading, f: Forward, codec: Codec, raw: Bytes, incoming: seq<Bytes>)
    requires Rebuilt(r, f, codec) && WellCut(incoming)
    requires PrintHead(f.head) <= raw && raw + Concat(incoming) == PrintHead(f.head) + f.body
    ensures FramingOf(f.head.headers).Some?
    ensures var framing := FramingOf(f.head.headers).value;
            var result := ReadBody(raw, |PrintHead(f.head)|, framing, BodyLimits(f.head.path), incoming).result;
            if f.rewritten ==> |f.body| <= BodyLimits(f.head.path).body then
              result == Ok(BodyRead(PrintHead(f.head) + f.body, if f.rewritten then f.body else r.read.body))
              && !framing.expects
            else result.Err?
  {
    hide PrintHead;
    hide FramingOf;
    hide BodyLimits;
    hide Rebuild;
    hide WellFormedButForCount;
    hide ReadChunked;
    hide ReadSized;
    hide Chunked.Decoded;
    hide ForwardedHead;
    RebuiltHead(r, f, codec);
    ForwardedFraming(r.head.head, f.head.path, if f.rewritten then Some(f.body) else None);
    var end := |PrintHead(f.head)|;
    var limits := BodyLimits(f.head.path);
    assert raw[..end] == PrintHead(f.head);
    assert raw[end..] + Concat(incoming) == f.body by {
      assert raw + Concat(incoming) == raw[..end] + (raw[end..] + Concat(incoming));
      assert (raw + Concat(incoming))[end..] == f.body;
    }
    if f.rewritten {
      if |f.body| <= limits.body {
        ReadsSized(raw, end, end + |f.body|, incoming, f.body);
      }
    } else if r.framing.chunked {
      NeverOverWire(|raw| - end, incoming, |f.body|, limits.wire);
      ReadsChunked(raw, end, limits, incoming, f.body);
      assert f.body[..|f.body|] == f.body;
    } else if r.framing.contentLength.Some? {
      ReadsSized(raw, end, end + |f.body|, incoming, f.body);
    } else {
      assert PrintHead(f.head) + f.body == PrintHead(f.head);
    }
  }

  lemma RebuildAgain(r: Reading, f: Forward, codec: Codec, again: BodyRead)
    requires Rebuilt(r, f, codec)
    requires again == BodyRead(PrintHead(f.head) + f.body, if f.rewritten then f.body else r.read.body)
    ensures Rebuild(f.head, |PrintHead(f.head)|, false, again, codec) == Ok(Settled(f)) <==> ReadsBack(f, codec)
  {
    hide PrintHead;
    hide FramingOf;
    hide BodyLimits;
    hide WellFormedButForCount;
    hide Normalize.Normalize;
    hide ForwardedHead;
    hide Chunked.Decoded;
    hide WellFormed;
    RebuiltHead(r, f, codec);
    ForwardedHeadStays(r.head.head, r.framing.expects, f.head.path, if f.rewritten then Some(f.body) else None);
    assert again.raw[|PrintHead(f.head)|..] == f.body;
    var head := r.head.head;
    var parsed := if r.read.body == [] then None else codec.parse(r.read.body);
    if parsed.Some? {
      Normalize.NormalizeIsIdempotent(head.path, parsed.value);
      var n := Normalize.Normalize(head.path, parsed.value).value;
      ForwardedHeadPath(head, r.framing.expects, n.path, if n.changed then Some(codec.render(n.body)) else None);
    } else {
      ForwardedHeadPath(head, r.framing.expects, head.path, None);
    }
    if !ReadsBack(f, codec) {
      NotReadBack(f, codec, again);
    }
  }

  lemma NotReadBack(f: Forward, codec: Codec, again: BodyRead)
    requires !ReadsBack(f, codec) && f.json.Some?
    requires again == BodyRead(PrintHead(f.head) + f.body, f.body)
    ensures Rebuild(f.head, |PrintHead(f.head)|, false, again, codec) != Ok(Settled(f))
  {
    hide PrintHead;
    hide Normalize.Normalize;
    hide ForwardedHead;
    var parsed := if f.body == [] then None else codec.parse(f.body);
    if parsed.Some? && Normalize.Normalize(f.head.path, parsed.value).Ok? {
      Normalize.NormalizeIsIdempotent(f.head.path, parsed.value);
    }
  }

  lemma ForwardedHeadPath(head: Head, stripExpect: bool, path: string, rewritten: Option<Bytes>)
    ensures ForwardedHead(head, stripExpect, path, rewritten).path == path
  {}

  lemma MalformedIsNotRead(raw: Bytes, incoming: seq<Bytes>)
    requires WellCut(incoming) && ParseHead(raw + Concat(incoming)).Malformed?
    ensures ReadHead(raw, incoming).result.Err?
  {
    hide ParseHead;
    if ReadHead(raw, incoming).result.Ok? {
      HeadIsInside(raw, incoming);
      HeadStream(raw, incoming);
      var r := ReadHead(raw, incoming);
      HeadStable(r.result.value.raw, Concat(r.incoming));
      assert false;
    }
  }

  // A forwarded request with too many headers, or cut inside a head beyond the limit.
  lemma RefusedAgain(r: Reading, f: Forward, codec: Codec, again: seq<Bytes>)
    requires Rebuilt(r, f, codec) && WellCut(again) && Concat(again) == PrintHead(f.head) + f.body
    requires |f.head.headers| > MAX_HEADERS || CutsShort(0, again, |PrintHead(f.head)|)
    ensures Accept(again, codec).result.Err?
  {
    hide ParseHead;
    hide PrintHead;
    hide WellFormedHeader;
    hide CutsShort;
    hide Continue;
    hide ReadHead;
    RebuiltHead(r, f, codec);
    hide Rebuilt;
    assert [] + Concat(again) == Concat(again);
    if |f.head.headers| > MAX_HEADERS {
      LongHeadIsMalformed(f.head, f.body);
      MalformedIsNotRead([], again);
    } else {
      CutHeadIsNotRead([], again, f.head, f.body);
    }
  }

  // Accepting a request whose head and framing are known.
  lemma AcceptIs(incoming: seq<Bytes>, codec: Codec, start: HeadRead, framing: Framing, rest: seq<Bytes>)
    requires ReadHead([], incoming) == Outcome(Ok(start), rest) && start.end <= |start.raw|
    requires FramingOf(start.head.headers) == Some(framing)
    ensures var body := ReadBody(start.raw, start.end, framing, BodyLimits(start.head.path), rest).result;
            if body.Err? then Accept(incoming, codec).result.Err?
            else start.end <= |body.value.raw|
                 && Accept(incoming, codec).result == Rebuild(start.head, start.end, framing.expects, body.value, codec)
  {
    hide ReadHead;
    hide ReadBody;
    hide FramingOf;
    hide BodyLimits;
    hide Rebuild;
    if ReadBody(start.raw, start.end, framing, BodyLimits(start.head.path), rest).result.Ok? {
      BodyKeepsHead(start.raw, start.end, framing, BodyLimits(start.head.path), rest);
    }
  }

  // Any other forwarded request: only the limit on its body, or a codec that does not read it
  // back, stands in the way.
  lemma AcceptedAgain(r: Reading, f: Forward, codec: Codec, again: seq<Bytes>)
    requires Rebuilt(r, f, codec)
    requires WellCut(again) && Concat(again) == PrintHead(f.head) + f.body
    requires |f.head.headers| <= MAX_HEADERS && !CutsShort(0, again, |PrintHead(f.head)|)
    ensures if f.rewritten ==> |f.body| <= BodyLimits(f.head.path).body then
              Accept(again, codec).result == Ok(Settled(f)) <==> ReadsBack(f, codec)
            else Accept(again, codec).result.Err?
  {
    hide PrintHead;
    hide FramingOf;
    hide BodyLimits;
    hide Rebuild;
    hide WellFormedHeader;
    hide ReadHead;
    hide ReadBody;
    hide ReadsBack;
    hide CutsShort;
    hide Accept;
    RebuiltHead(r, f, codec);
    hide Rebuilt;
    ReadsWholeHead(again, f.head, f.body);
    hide WellCut;
    var h := ReadHead([], again);
    var start := h.result.value;
    BodyAgain(r, f, codec, start.raw, h.incoming);
    var framing := FramingOf(f.head.headers).value;
    AcceptIs(again, codec, start, framing, h.incoming);
    hide Concat;
    if f.rewritten ==> |f.body| <= BodyLimits(f.head.path).body {
      var body := ReadBody(start.raw, start.end, framing, BodyLimits(f.head.path), h.incoming).result.value;
      RebuildAgain(r, f, codec, body);
    }
  }

  // Reading a forwarded request, however it is cut, can succeed only when its limits are met and
  // no read stops inside a head beyond the head limit. It gives the same bytes, verb, path, JSON,
  // model and session with nothing to normalise exactly when the codec also reads back the body
  // that was re-serialised, if one was.
  lemma ForwardingIsAFixedPoint(incoming: seq<Bytes>, again: seq<Bytes>, codec: Codec, f: Forward)
    requires WellCut(incoming) && WellCut(again) && |Concat(incoming)| < U64_LIMIT
    requires Concat(again) == Finished(f).raw && |Finished(f).raw| < U64_LIMIT
    ensures Accept(incoming, codec).result == Ok(f) ==>
              && ReadRequest(incoming, codec).result == Ok(Finished(f))
              && (ReadRequest(again, codec).result.Ok? ==> Readmissible(f) && !CutsShort(0, again, |PrintHead(f.head)|))
              && (Accept(again, codec).result == Ok(Settled(f)) <==>
                    Readmissible(f) && !CutsShort(0, again, |PrintHead(f.head)|) && ReadsBack(f, codec))
              && (Accept(again, codec).result == Ok(Settled(f)) ==>
                    ReadRequest(again, codec).result == Ok(Finished(f).(adapter := Normalize.NoAdapter)))
  {
    hide PrintHead;
    hide BodyLimits;
    hide Accept;
    hide CutsShort;
    hide ReadsBack;
    hide WellCut;
    if Accept(incoming, codec).result == Ok(f) {
      var r := ReadingOf(incoming, codec);
      assert Rebuilt(r, f, codec);
      hide Rebuilt;
      if |f.head.headers| > MAX_HEADERS || CutsShort(0, again, |PrintHead(f.head)|) {
        RefusedAgain(r, f, codec, again);
      } else {
        AcceptedAgain(r, f, codec, again);
      }
    }
  }

  // A JSON codec known by what it can read: values whose numbers have certain texts and which nest
  // no deeper than a limit. On these it is inverse.
  ghost predicate Inverse(codec: Codec, numbers: string -> bool, levels: int) {
    && (forall v :: Fits(v, numbers, levels) ==> codec.parse(codec.render(v)) == Some(v) && codec.render(v) != [])
    && forall b :: codec.parse(b).Some? ==> Fits(codec.parse(b).value, numbers, levels)
  }

  // What it does not read back is what normalisation has nested too deep.
  lemma InverseReadsBack(incoming: seq<Bytes>, codec: Codec, numbers: string -> bool, levels: int, f: Forward)
    requires Accept(incoming, codec).result == Ok(f) && Inverse(codec, numbers, levels)
    ensures ReadsBack(f, codec) <==> (f.rewritten ==> f.json.Some? && Fits(f.json.value, numbers, levels))
    ensures f.rewritten ==> f.json.Some? && Fits(f.json.value, numbers, levels + 4)
  {
    hide Fits;
    hide ForwardedHead;
    hide BodyLimits;
    hide FramingOf;
    hide ReadHead;
    hide ReadBody;
    hide Normalize.Normalize;
    HeadIsInside([], incoming);
    var h := ReadHead([], incoming);
    var start := h.result.value;
    var framing := FramingOf(start.head.headers).value;
    AcceptIs(incoming, codec, start, framing, h.incoming);
    var body := ReadBody(start.raw, start.end, framing, BodyLimits(start.head.path), h.incoming).result.value;
    var parsed := if body.body == [] then None else codec.parse(body.body);
    if parsed.Some? {
      NormalizeFits(start.head.path, parsed.value, numbers, levels);
    }
  }

  /* ----- forwarded requests that are refused ----- */

  // A bodyless request that fills the header table without a `Connection` header: its forwarded
  // form has one header too many.
  lemma FullTableIsRefusedAgain(incoming: seq<Bytes>, again: seq<Bytes>, codec: Codec, h: Head)
    requires WellCut(incoming) && WellCut(again)
    requires WellFormed(h) && |h.headers| == MAX_HEADERS && !CutsShort(0, incoming, |PrintHead(h)|)
    requires forall i :: 0 <= i < |h.headers| ==> KindOf(h.headers[i]).Other?
    requires Concat(incoming) == PrintHead(h) && |Concat(incoming)| < U64_LIMIT
    ensures Accept(incoming, codec).result.Ok?
    ensures Concat(again) == ReadRequest(incoming, codec).result.value.raw ==> ReadRequest(again, codec).result.Err?
  {
    hide PrintHead;
    hide WellFormed;
    hide CutsShort;
    hide BodyLimits;
    hide Accept;
    OtherHeaders(UNFRAMED, h.headers);
    assert Concat(incoming) == PrintHead(h) + ([] + []);
    SizedRequestArrives(incoming, codec, h, [], []);
    hide FramingOf;
    hide Kept;
    var f := Accept(incoming, codec).result.value;
    assert |f.head.headers| == MAX_HEADERS + 1;
    hide Rebuild;
    var r := ReadingOf(incoming, codec);
    assert Rebuilt(r, f, codec);
    hide Rebuilt;
    if Concat(again) == ReadRequest(incoming, codec).result.value.raw {
      RefusedAgain(r, f, codec, again);
    }
  }

  // A request whose normalised body prints longer than its limit, whatever the codec.
  lemma GrownBodyIsRefusedAgain(incoming: seq<Bytes>, again: seq<Bytes>, codec: Codec, h: Head, body: Bytes,
                                n: Normalize.Normalized)
    requires WellCut(incoming) && WellCut(again) && |Concat(incoming)| < U64_LIMIT
    requires WellFormed(h) && !CutsShort(0, incoming, |PrintHead(h)|) && Concat(incoming) == PrintHead(h) + body
    requires FramingOf(h.headers).Some? && !FramingOf(h.headers).value.chunked
    requires |body| == FramingOf(h.headers).value.contentLength.GetOr(0) <= BodyLimits(h.path).body && body != []
    requires codec.parse(body).Some? && Normalize.Normalize(h.path, codec.parse(body).value) == Ok(n) && n.changed
    requires BodyLimits(h.path).body < |codec.render(n.body)| < U64_LIMIT
    ensures Accept(incoming, codec).result.Ok?
    ensures Concat(again) == ReadRequest(incoming, codec).result.value.raw ==> ReadRequest(again, codec).result.Err?
  {
    hide PrintHead;
    hide FramingOf;
    hide CutsShort;
    hide Accept;
    hide ForwardedHead;
    hide BodyLimits;
    hide Normalize.Normalize;
    assert body + [] == body;
    SizedRequestArrives(incoming, codec, h, body, []);
    NormalizedPath(h.path, codec.parse(body).value);
    var f := Accept(incoming, codec).result.value;
    ForwardedHeadPath(h, FramingOf(h.headers).value.expects, n.path, Some(f.body));
    assert f.rewritten && f.body == codec.render(n.body) && BodyLimits(f.head.path) == BodyLimits(h.path);
    hide Rebuild;
    hide WellFormed;
    var r := ReadingOf(incoming, codec);
    assert Rebuilt(r, f, codec);
    hide Rebuilt;
    if Concat(again) == ReadRequest(incoming, codec).result.value.raw {
      if |f.head.headers| > MAX_HEADERS || CutsShort(0, again, |PrintHead(f.head)|) {
        RefusedAgain(r, f, codec, again);
      } else {
        AcceptedAgain(r, f, codec, again);
      }
    }
  }

  // A codec that prints without white space: quotes, colons, commas and brackets only.
  ghost predicate Compact(codec: Codec) {
    && (forall name :: LowerCase(name) ==> |codec.render(String(name))| == |name| + 2)
    && (forall v :: |codec.render(Array([v]))| == |codec.render(v)| + 2)
    && (forall k, v :: |codec.render(Object(map[k := v]))| == |codec.render(String(k))| + |codec.render(v)| + 3)
    && forall k, v, l, w :: k != l ==>
         |codec.render(Object(map[k := v, l := w]))|
         == |codec.render(String(k))| + |codec.render(v)| + |codec.render(String(l))| + |codec.render(w)| + 5
  }

  predicate LowerCase(name: string) {
    forall i :: 0 <= i < |name| ==> 'a' <= name[i] <= 'z'
  }

  lemma MessageLength(codec: Codec, content: Json)
    requires Compact(codec)
    ensures |codec.render(OnlyInput(content))| == |codec.render(content)| + 10
    ensures |codec.render(OnlyMessage(content))| == |codec.render(content)| + 41
  {
    assert LowerCase("input") && LowerCase("messages");
    assert LowerCase("role") && LowerCase("user") && LowerCase("content");
    assert |codec.render(Normalize.Message("user", content))| == |codec.render(content)| + 26 by {
      assert "role" != "content" by { assert |"role"| == 4 && |"content"| == 7; }
    }
    assert |codec.render(Array([Normalize.Message("user", content)]))| == |codec.render(content)| + 28;
  }

  // A text alone as the input becomes a conversation, 31 bytes longer.
  lemma InputGrows(codec: Codec, text: string)
    requires Compact(codec)
    ensures Normalize.Normalize(RESPONSES, OnlyInput(String(text)))
         == Ok(Normalize.Normalized(OnlyMessage(String(text)), true, COMPLETIONS, Normalize.ResponsesJson))
    ensures |codec.render(OnlyMessage(String(text)))| == |codec.render(OnlyInput(String(text)))| + 31
  {
    hide Normalize.Normalize;
    hide Normalize.Message;
    MessageLength(codec, String(text));
    hide Compact;
    InputNormalizes(String(text), String(text));
  }

  lemma ResponsesLimits()
    ensures BodyLimits(RESPONSES).body == MAX_BODY_BYTES
  {
    hide Normalize.PathOnly;
    ResponsesPath();
    assert |RESPONSES| == 13 && |"/api/objects"| == 12;
  }

  // So a text that nearly fills the limit is accepted, and refused once forwarded.
  lemma InputOutgrowsTheLimit(incoming: seq<Bytes>, again: seq<Bytes>, codec: Codec, h: Head, text: string)
    requires WellCut(incoming) && WellCut(again) && |Concat(incoming)| < U64_LIMIT
    requires WellFormed(h) && h.path == RESPONSES && !CutsShort(0, incoming, |PrintHead(h)|)
    requires FramingOf(h.headers).Some? && !FramingOf(h.headers).value.chunked
    requires Concat(incoming) == PrintHead(h) + codec.render(OnlyInput(String(text)))
    ensures var body := codec.render(OnlyInput(String(text)));
            && Compact(codec) && codec.parse(body) == Some(OnlyInput(String(text)))
            && |body| == FramingOf(h.headers).value.contentLength.GetOr(0)
            && MAX_BODY_BYTES - 31 < |body| <= MAX_BODY_BYTES ==>
              && Accept(incoming, codec).result.Ok?
              && (Concat(again) == ReadRequest(incoming, codec).result.value.raw ==>
                    ReadRequest(again, codec).result.Err?)
  {
    hide PrintHead;
    hide CutsShort;
    hide Accept;
    hide ReadRequest;
    hide WellFormed;
    hide FramingOf;
    hide Concat;
    hide Normalize.Normalize;
    hide OnlyInput;
    hide OnlyMessage;
    hide BodyLimits;
    hide Compact;
    AcceptedIsRead(incoming, codec);
    var body := codec.render(OnlyInput(String(text)));
    if Compact(codec) && codec.parse(body) == Some(OnlyInput(String(text)))
       && |body| == FramingOf(h.headers).value.contentLength.GetOr(0)
       && MAX_BODY_BYTES - 31 < |body| <= MAX_BODY_BYTES {
      InputGrows(codec, text);
      ResponsesLimits();
      var n := Normalize.Normalized(OnlyMessage(String(text)), true, COMPLETIONS, Normalize.ResponsesJson);
      GrownBodyIsRefusedAgain(incoming, again, codec, h, body, n);
    }
  }

  lemma {:induction false} OtherHeaders(f: Framing, headers: seq<Header>)
    requires forall i :: 0 <= i < |headers| ==> KindOf(headers[i]).Other?
    ensures FoldAll(f, headers) == Some(f)
    ensures |Kept(headers, false, false)| == |headers|
    decreases |headers|
  {
    hide KindOf;
    hide Readable;
    if headers != [] {
      OtherHeaders(f, headers[1..]);
    }
  }

  const FILLER := Header("A", [])

  function Fillers(n: nat): (r: seq<Header>)
    ensures |r| == n
  {
    seq(n, _ => FILLER)
  }

  lemma {:induction false} FillersAreShort(n: nat)
    ensures |PrintHeaders(Fillers(n))| == 5 * n + 2
    decreases n
  {
    if n > 0 {
      FillersAreShort(n - 1);
      assert Fillers(n)[1..] == Fillers(n - 1);
      assert Utf8.Encode("A") == [65] by {
        Utf8.EncodeAscii("A");
      }
    }
  }

  // A concrete one: 64 short headers. It is accepted, and its forwarded form is not.
  lemma SixtyFourHeadersAreRefusedAgain(codec: Codec)
    ensures var h := Head("GET", "/", "1", Fillers(MAX_HEADERS));
            var first := ReadRequest(Singles(PrintHead(h)), codec).result;
            && WellFormed(h) && first.Ok? && ReadRequest(Singles(first.value.raw), codec).result.Err?
  {
    hide ReadRequest;
    hide Accept;
    hide Concat;
    hide WellCut;
    hide Singles;
    var h := Head("GET", "/", "1", Fillers(MAX_HEADERS));
    FillersAreShort(MAX_HEADERS);
    FillersAreOther();
    ShortStart();
    hide PrintHeaders;
    hide PrintRequest;
    assert |PrintHead(h)| <= MAX_HEADER_BYTES;
    var raw := PrintHead(h);
    hide PrintHead;
    SinglesAreAll(raw);
    SmallHeadIsNeverCut(0, Singles(raw), |raw|);
    AcceptedIsRead(Singles(raw), codec);
    FullTableIsRefusedAgain(Singles(raw), Singles(raw), codec, h);
    var first := ReadRequest(Singles(raw), codec).result.value.raw;
    SinglesAreAll(first);
    FullTableIsRefusedAgain(Singles(raw), Singles(first), codec, h);
  }

  lemma AcceptedIsRead(incoming: seq<Bytes>, codec: Codec)
    ensures ReadRequest(incoming, codec).result.Ok? <==> Accept(incoming, codec).result.Ok?
  {}

  lemma FillersAreOther()
    ensures KindOf(FILLER).Other? && WellFormedHeader(FILLER)
  {
    assert Lower("A") == "a";
  }

  lemma ShortStart()
    ensures |PrintRequest(Head("GET", "/", "1", Fillers(MAX_HEADERS)))| < 100
    ensures IsToken("GET") && IsPath("/") && IsVersion("1")
  {
    hide Utf8.Encode;
    var text := RequestText("GET", "/", "1");
    assert |text| == 14;
    AsciiText("GET", "/", "1");
    Utf8.EncodeAscii(text);
  }

  lemma AsciiText(verb: string, path: string, version: string)
    requires Utf8.IsAscii(verb) && Utf8.IsAscii(path) && Utf8.IsAscii(version)
    ensures Utf8.IsAscii(RequestText(verb, path, version))
  {}
}
