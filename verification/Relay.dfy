/**
 The relay that rewrites REGISTER_PEER endpoints: frames of a command byte, a little-endian
 length and a payload pass through, however the stream is cut into reads.
 */
module Relay {
  import opened Results
  import opened Wire
  import opened Text
  import Utf8

  const REGISTER_PEER: Byte := 18
  const ENDPOINT_SIZE: nat := 128
  const REGISTER_PEER_SIZE: nat := 4 + 128
  const BUFFER_SIZE: nat := 64 * 1024
  const HEADER_SIZE: nat := 9

  type Port = p: nat | p < U16_LIMIT
  type PortMap = map<Port, Port>

  /* ----- the endpoint field ----- */

  // The text before the first NUL; empty when it is not UTF-8.
  function EndpointText(endpoint: Bytes): string {
    var end := FirstMatch(endpoint, [0], 0).GetOr(|endpoint|);
    if end <= |endpoint| then Utf8.Decode(endpoint[..end]).GetOr("") else ""
  }

  // The port after the last colon, or the whole text without one.
  function PortOf(payload: Bytes): (p: Option<Port>)
    requires |payload| == REGISTER_PEER_SIZE
  {
    ParseUnsigned(AfterLast(EndpointText(payload[4..]), ':'), 10, U16_LIMIT)
  }

  function LocalText(port: Port): string {
    "127.0.0.1:" + Decimal(port)
  }

  function Zeros(n: nat): (z: Bytes)
    ensures |z| == n && forall i :: 0 <= i < n ==> z[i] == 0
  {
    seq(n, _ => 0)
  }

  // The text, cut to leave a final NUL, in a zeroed field.
  function LocalEndpoint(port: Port): (e: Bytes)
    ensures |e| == ENDPOINT_SIZE
  {
    var text := Utf8.Encode(LocalText(port));
    var kept := if |text| < ENDPOINT_SIZE - 1 then |text| else ENDPOINT_SIZE - 1;
    text[..kept] + Zeros(ENDPOINT_SIZE - kept)
  }

  function Rewritten(payload: Bytes, ports: PortMap): (r: Bytes)
    requires |payload| == REGISTER_PEER_SIZE
    ensures |r| == REGISTER_PEER_SIZE && r[..4] == payload[..4]
  {
    var p := PortOf(payload);
    if p.Some? && p.value in ports then payload[..4] + LocalEndpoint(ports[p.value]) else payload
  }

  method RewriteEndpoint(payload: array<Byte>, ports: PortMap)
    requires payload.Length == REGISTER_PEER_SIZE
    modifies payload
    ensures payload[..] == Rewritten(old(payload[..]), ports)
  {
    hide EndpointText;
    hide AfterLast;
    hide ParseUnsigned;
    hide LocalEndpoint;
    var text := EndpointText(payload[4..]);
    var port := ParseUnsigned(AfterLast(text, ':'), 10, U16_LIMIT);
    assert payload[..][4..] == payload[4..];
    if port.Some? && port.value in ports {
      var endpoint := LocalEndpoint(ports[port.value]);
      forall i | 0 <= i < ENDPOINT_SIZE {
        payload[4 + i] := endpoint[i];
      }
    }
  }

  /* ----- the relay ----- */

  // What reaches the other side, and whether the stream ended between frames.
  datatype Relayed = Relayed(output: Bytes, clean: bool)

  function SizeOf(input: Bytes): nat
    requires |input| >= HEADER_SIZE
  {
    FromLe(input[1..HEADER_SIZE])
  }

  predicate Registers(input: Bytes)
    requires |input| >= HEADER_SIZE
  {
    input[0] == REGISTER_PEER && SizeOf(input) == REGISTER_PEER_SIZE
  }

  function RelayOf(input: Bytes, ports: PortMap): Relayed
    decreases |input|
  {
    if input == [] then Relayed([], true)
    else if |input| < HEADER_SIZE then Relayed([], false)
    else
      var end := HEADER_SIZE + SizeOf(input);
      if |input| < end then Relayed(if Registers(input) then [] else input, false)
      else
        var payload := if Registers(input) then Rewritten(input[HEADER_SIZE..end], ports) else input[HEADER_SIZE..end];
        var rest := RelayOf(input[end..], ports);
        Relayed(input[..HEADER_SIZE] + payload + rest.output, rest.clean)
  }

  // The receiving end of a stream; how much a plain read returns is not determined.
  class RecvStream {
    var data: Bytes

    constructor (data: Bytes)
      ensures this.data == data
    {
      this.data := data;
    }

    method ReadExact(n: nat) returns (r: Result<Bytes, ()>)
      modifies this
      ensures |old(data)| >= n ==> r == Ok(old(data)[..n]) && data == old(data)[n..]
      ensures |old(data)| < n ==> r == Err(()) && data == []
    {
      if |data| < n {
        data := [];
        return Err(());
      }
      r := Ok(data[..n]);
      data := data[n..];
    }

    // Some of the next bytes, at least one and at most `max`; None at the end of the stream.
    method Read(max: nat) returns (r: Option<Bytes>)
      requires max > 0
      modifies this
      ensures old(data) == [] ==> r == None && data == []
      ensures old(data) != [] ==> r.Some? && 0 < |r.value| <= max && old(data) == r.value + data
    {
      if data == [] {
        return None;
      }
      var n :| 0 < n <= max && n <= |data|;
      r := Some(data[..n]);
      data := data[n..];
    }
  }

  class Writer {
    var written: Bytes

    constructor ()
      ensures written == []
    {
      written := [];
    }

    method WriteAll(bytes: Bytes)
      modifies this
      ensures written == old(written) + bytes
    {
      written := written + bytes;
    }
  }

  // Streams `size` bytes through a bounded buffer; false when the stream ends before.
  method CopyPayload(recv: RecvStream, send: Writer, size: nat) returns (ok: bool)
    modifies recv, send
    ensures ok == (|old(recv.data)| >= size)
    ensures ok ==> send.written == old(send.written) + old(recv.data)[..size] && recv.data == old(recv.data)[size..]
    ensures !ok ==> send.written == old(send.written) + old(recv.data) && recv.data == []
  {
    var remaining: nat := size;
    ghost var copied: Bytes := [];
    while remaining > 0
      invariant remaining <= size && |copied| == size - remaining
      invariant old(recv.data) == copied + recv.data
      invariant send.written == old(send.written) + copied
      decreases remaining
    {
      var chunk := recv.Read(if remaining < BUFFER_SIZE then remaining else BUFFER_SIZE);
      if chunk.None? {
        return false;
      }
      send.WriteAll(chunk.value);
      copied := copied + chunk.value;
      remaining := remaining - |chunk.value|;
    }
    assert copied == old(recv.data)[..size];
    ok := true;
  }

  // What the payload of a frame becomes.
  function Passed(header: Bytes, payload: Bytes, ports: PortMap): Bytes
    requires |header| == HEADER_SIZE && |payload| == SizeOf(header)
  {
    if Registers(header) then Rewritten(payload, ports) else payload
  }

  // Forwards one frame whose header has been read.
  method RelayFrame(recv: RecvStream, send: Writer, header: Bytes, ports: PortMap) returns (ok: bool)
    requires |header| == HEADER_SIZE
    modifies recv, send
    ensures ok == (|old(recv.data)| >= SizeOf(header))
    ensures ok ==> recv.data == old(recv.data)[SizeOf(header)..]
                   && send.written
                      == old(send.written) + (header + Passed(header, old(recv.data)[..SizeOf(header)], ports))
    ensures !ok ==> send.written == old(send.written) + if Registers(header) then [] else header + old(recv.data)
  {
    hide Rewritten;
    hide SizeOf;
    var size := SizeOf(header);
    if header[0] == REGISTER_PEER && size == REGISTER_PEER_SIZE {
      var got := recv.ReadExact(size);
      if got.Err? {
        return false;
      }
      var payload := new Byte[REGISTER_PEER_SIZE](i requires 0 <= i < REGISTER_PEER_SIZE => got.value[i]);
      assert payload[..] == got.value;
      RewriteEndpoint(payload, ports);
      send.WriteAll(header);
      send.WriteAll(payload[..]);
      ok := true;
    } else {
      send.WriteAll(header);
      ok := CopyPayload(recv, send, size);
    }
  }

  method RelayWithRewrite(recv: RecvStream, send: Writer, ports: PortMap) returns (clean: bool)
    modifies recv, send
    ensures send.written == old(send.written) + RelayOf(old(recv.data), ports).output
    ensures clean == RelayOf(old(recv.data), ports).clean
  {
    hide Passed;
    hide SizeOf;
    hide Registers;
    hide RelayOf;
    ghost var all := RelayOf(recv.data, ports);
    while true
      invariant old(send.written) + all.output == send.written + RelayOf(recv.data, ports).output
      invariant all.clean == RelayOf(recv.data, ports).clean
      decreases |recv.data|
    {
      ghost var input := recv.data;
      ShortInput(input, ports);
      var cmd := recv.ReadExact(1);
      if cmd.Err? {
        return true;
      }
      var sizeBytes := recv.ReadExact(8);
      if sizeBytes.Err? {
        return false;
      }
      var header := cmd.value + sizeBytes.value;
      assert header == input[..HEADER_SIZE] && recv.data == input[HEADER_SIZE..];
      FrameStep(input, ports);
      var ok := RelayFrame(recv, send, header, ports);
      if !ok {
        return false;
      }
    }
  }

  lemma ShortInput(input: Bytes, ports: PortMap)
    ensures |input| < HEADER_SIZE ==> RelayOf(input, ports) == Relayed([], input == [])
  {}

  // One unfolding of the relay, in terms of the header and what follows it.
  lemma FrameStep(input: Bytes, ports: PortMap)
    requires |input| >= HEADER_SIZE
    ensures var header, rest := input[..HEADER_SIZE], input[HEADER_SIZE..];
            var size := SizeOf(header);
            RelayOf(input, ports)
            == if |rest| < size then Relayed(if Registers(header) then [] else header + rest, false)
               else var after := RelayOf(rest[size..], ports);
                    Relayed(header + Passed(header, rest[..size], ports) + after.output, after.clean)
  {
    hide Rewritten;
    var header, rest := input[..HEADER_SIZE], input[HEADER_SIZE..];
    assert header[1..HEADER_SIZE] == input[1..HEADER_SIZE];
    var size := SizeOf(header);
    assert size == SizeOf(input) && Registers(header) == Registers(input);
    assert header + rest == input;
    if |rest| >= size {
      assert rest[size..] == input[HEADER_SIZE + size..];
      assert rest[..size] == input[HEADER_SIZE..HEADER_SIZE + size];
    }
  }

  /* ----- frames ----- */

  datatype Frame = Frame(cmd: Byte, payload: Bytes)

  function Encode(f: Frame): Bytes {
    [f.cmd] + ToLe(|f.payload|, 8) + f.payload
  }

  function EncodeAll(frames: seq<Frame>): Bytes {
    if frames == [] then [] else Encode(frames[0]) + EncodeAll(frames[1..])
  }

  predicate Framed(frames: seq<Frame>) {
    forall i :: 0 <= i < |frames| ==> |frames[i].payload| < U64_LIMIT
  }

  // Only the endpoint field of a full REGISTER_PEER frame with a mapped port changes.
  function RewriteFrame(f: Frame, ports: PortMap): (r: Frame)
    ensures r.cmd == f.cmd && |r.payload| == |f.payload|
    ensures r != f ==> f.cmd == REGISTER_PEER && |f.payload| == REGISTER_PEER_SIZE && r.payload[..4] == f.payload[..4]
  {
    if f.cmd == REGISTER_PEER && |f.payload| == REGISTER_PEER_SIZE
    then f.(payload := Rewritten(f.payload, ports))
    else f
  }

  function RewriteAll(frames: seq<Frame>, ports: PortMap): (r: seq<Frame>)
    ensures |r| == |frames|
  {
    seq(|frames|, i requires 0 <= i < |frames| => RewriteFrame(frames[i], ports))
  }

  // The parts of an input that starts with an encoded frame.
  lemma FrameParts(f: Frame, rest: Bytes)
    requires |f.payload| < U64_LIMIT
    ensures var input := Encode(f) + rest;
            && |input| >= HEADER_SIZE && input[0] == f.cmd && SizeOf(input) == |f.payload|
            && HEADER_SIZE + |f.payload| <= |input|
            && input[..HEADER_SIZE] == [f.cmd] + ToLe(|f.payload|, 8)
            && input[HEADER_SIZE..HEADER_SIZE + |f.payload|] == f.payload
            && input[HEADER_SIZE + |f.payload|..] == rest
  {
    hide ToLe;
    hide FromLe;
    var input := Encode(f) + rest;
    var size := ToLe(|f.payload|, 8);
    assert input == [f.cmd] + (size + (f.payload + rest));
    assert input[1..HEADER_SIZE] == size;
    Widths();
    LeRoundTrip(|f.payload|, 8);
    assert input[..HEADER_SIZE] == [f.cmd] + size;
    assert input[HEADER_SIZE..] == f.payload + rest;
    assert input[HEADER_SIZE..HEADER_SIZE + |f.payload|] == f.payload;
    assert input[HEADER_SIZE + |f.payload|..] == rest;
  }

  // Relaying frames gives the rewritten frames, of the same commands and sizes.
  lemma {:induction false} RelayRewritesFrames(frames: seq<Frame>, ports: PortMap)
    requires Framed(frames)
    ensures RelayOf(EncodeAll(frames), ports) == Relayed(EncodeAll(RewriteAll(frames, ports)), true)
    ensures |EncodeAll(RewriteAll(frames, ports))| == |EncodeAll(frames)|
    decreases |frames|
  {
    hide Rewritten;
    hide SizeOf;
    hide ToLe;
    hide Encode;
    if frames != [] {
      var f, rest := frames[0], EncodeAll(frames[1..]);
      var g := RewriteFrame(f, ports);
      RelayRewritesFrames(frames[1..], ports);
      FrameParts(f, rest);
      assert RewriteAll(frames, ports)[1..] == RewriteAll(frames[1..], ports);
      EncodeIs(f);
      EncodeIs(g);
      assert EncodeAll(RewriteAll(frames, ports)) == Encode(g) + EncodeAll(RewriteAll(frames[1..], ports));
    }
  }

  lemma EncodeIs(f: Frame)
    ensures Encode(f) == [f.cmd] + ToLe(|f.payload|, 8) + f.payload
    ensures |Encode(f)| == HEADER_SIZE + |f.payload|
  {}

  // The stream ends between frames exactly when it is a sequence of frames.
  lemma CleanIffFrames(input: Bytes, ports: PortMap)
    ensures RelayOf(input, ports).clean <==> exists frames :: Framed(frames) && input == EncodeAll(frames)
  {
    hide RelayOf;
    if RelayOf(input, ports).clean {
      var frames := FramesOf(input, ports);
    }
    if frames :| Framed(frames) && input == EncodeAll(frames) {
      RelayRewritesFrames(frames, ports);
    }
  }

  lemma {:induction false} FramesOf(input: Bytes, ports: PortMap) returns (frames: seq<Frame>)
    requires RelayOf(input, ports).clean
    ensures Framed(frames) && input == EncodeAll(frames)
    decreases |input|
  {
    hide Rewritten;
    hide Encode;
    if input == [] {
      frames := [];
    } else {
      var end := HEADER_SIZE + SizeOf(input);
      var rest := FramesOf(input[end..], ports);
      var f := FrameAt(input);
      frames := [f] + rest;
      assert frames[1..] == rest;
    }
  }

  lemma FrameAt(input: Bytes) returns (f: Frame)
    requires |input| >= HEADER_SIZE && HEADER_SIZE + SizeOf(input) <= |input|
    ensures |f.payload| < U64_LIMIT && input == Encode(f) + input[HEADER_SIZE + SizeOf(input)..]
  {
    hide FromLe;
    hide ToLe;
    var size := SizeOf(input);
    f := Frame(input[0], input[HEADER_SIZE..HEADER_SIZE + size]);
    Widths();
    LeOfFrom(input[1..HEADER_SIZE]);
    assert ToLe(size, 8) == input[1..HEADER_SIZE];
    assert input[..1] == [input[0]];
    assert input
        == input[..1] + input[1..HEADER_SIZE] + input[HEADER_SIZE..HEADER_SIZE + size] + input[HEADER_SIZE + size..];
  }

  /* ----- relaying twice ----- */

  lemma {:induction false} DecimalLength(n: nat, digits: nat, limit: nat)
    requires digits > 0 && n < limit && limit == Pow10(digits)
    ensures |Decimal(n)| <= digits
    decreases digits
  {
    if n >= 10 {
      assert digits > 1;
      DecimalLength(n / 10, digits - 1, Pow10(digits - 1));
    }
  }

  function Pow10(k: nat): nat {
    if k == 0 then 1 else 10 * Pow10(k - 1)
  }

  lemma LocalTextIsShort(port: Port)
    ensures |LocalText(port)| <= 15 && Utf8.IsAscii(LocalText(port))
    ensures forall i :: 0 <= i < |LocalText(port)| ==> LocalText(port)[i] as int != 0
    ensures AfterLast(LocalText(port), ':') == Decimal(port)
  {
    hide Decimal;
    assert Pow10(5) == 10 * Pow10(4) == 100 * Pow10(3) == 1000 * Pow10(2) == 10000 * Pow10(1);
    DecimalLength(port, 5, Pow10(5));
    var host := "127.0.0.1";
    assert LocalText(port) == host + [':'] + Decimal(port);
    AfterLastIs(host, ':', Decimal(port));
    forall i | 0 <= i < |LocalText(port)| ensures LocalText(port)[i] as int != 0 {
      if i > |host| {
        assert LocalText(port)[i] in Decimal(port);
      }
    }
  }

  // A rewritten endpoint names the port it was given.
  lemma LocalEndpointPort(payload: Bytes, port: Port)
    requires |payload| == REGISTER_PEER_SIZE && payload[4..] == LocalEndpoint(port)
    ensures PortOf(payload) == Some(port)
  {
    LocalTextIsShort(port);
    hide AfterLast;
    hide ParseUnsigned;
    hide LocalText;
    hide Utf8.Encode;
    hide Utf8.Decode;
    var text := LocalText(port);
    var bytes := Utf8.Encode(text);
    Utf8.EncodeAscii(text);
    var endpoint := LocalEndpoint(port);
    assert bytes[..|bytes|] == bytes;
    assert endpoint == bytes + Zeros(ENDPOINT_SIZE - |bytes|);
    forall i | 0 <= i < |bytes| ensures !OccursAt(endpoint, [0], i) {
      assert endpoint[i..i + 1][0] == bytes[i];
    }
    assert endpoint[|bytes|] == 0;
    assert endpoint[|bytes|..|bytes| + 1] == [0];
    FirstMatchIs(endpoint, [0], 0, |bytes|);
    assert endpoint[..|bytes|] == bytes;
    Utf8.RoundTrip(text);
    DecimalRoundTrip(port, U16_LIMIT);
  }

  // The bytes of the endpoint of this host: "127.0.0.1:", the digits of the port, and zeros.
  lemma LocalEndpointIs(port: Port)
    ensures var digits := Decimal(port);
            var host: Bytes := [49, 50, 55, 46, 48, 46, 48, 46, 49, 58];
            && |digits| <= 5 && LocalEndpoint(port)[..10] == host
            && (forall i :: 0 <= i < |digits| ==> LocalEndpoint(port)[10 + i] == digits[i] as int)
            && (forall i :: 10 + |digits| <= i < 128 ==> LocalEndpoint(port)[i] == 0)
  {
    LocalTextIsShort(port);
    hide Utf8.Encode;
    hide Decimal;
    var text := LocalText(port);
    Utf8.EncodeAscii(text);
    var bytes := Utf8.Encode(text);
    assert text[..10] == "127.0.0.1:" && text[10..] == Decimal(port);
    assert bytes[..|bytes|] == bytes;
    var host: Bytes := [49, 50, 55, 46, 48, 46, 48, 46, 49, 58];
    assert LocalEndpoint(port) == bytes + Zeros(128 - |bytes|);
    forall i | 0 <= i < 10
      ensures LocalEndpoint(port)[i] == host[i]
    {
      assert bytes[i] == text[i] as int && text[i] == "127.0.0.1:"[i];
    }
    assert LocalEndpoint(port)[..10] == host;
  }

  // An endpoint field that holds any host and a port, up to a zero byte or to its end, is mapped
  // by that port.
  lemma PortIsRead(payload: Bytes, host: string, port: Port, tail: Bytes)
    requires |payload| == REGISTER_PEER_SIZE
    requires payload[4..] == Utf8.Encode(host + ":" + Decimal(port)) + tail && (tail == [] || tail[0] == 0)
    requires forall i :: 0 <= i < |host| ==> host[i] as int != 0
    ensures PortOf(payload) == Some(port)
  {
    hide AfterLast;
    hide ParseUnsigned;
    hide Decimal;
    hide Utf8.Encode;
    hide Utf8.Decode;
    hide FirstMatch;
    var text := host + ":" + Decimal(port);
    var bytes := Utf8.Encode(text);
    var endpoint := payload[4..];
    NoZero(host, port);
    forall i | 0 <= i < |bytes|
      ensures !OccursAt(endpoint, [0], i)
    {
      assert endpoint[i..i + 1][0] == bytes[i];
    }
    if tail != [] {
      assert endpoint[|bytes|..|bytes| + 1] == [0];
      FirstMatchIs(endpoint, [0], 0, |bytes|);
    }
    assert endpoint[..|bytes|] == bytes;
    Utf8.RoundTrip(text);
    assert text == host + [':'] + Decimal(port);
    AfterLastIs(host, ':', Decimal(port));
    DecimalRoundTrip(port, U16_LIMIT);
  }

  lemma NoZero(host: string, port: Port)
    requires forall i :: 0 <= i < |host| ==> host[i] as int != 0
    ensures 0 !in Utf8.Encode(host + ":" + Decimal(port))
  {
    hide Decimal;
    hide Utf8.Encode;
    var text := host + ":" + Decimal(port);
    forall k | 0 <= k < |text|
      ensures text[k] as int != 0
    {
      if k > |host| {
        assert text[k] in Decimal(port);
      }
    }
    var bytes := Utf8.Encode(text);
    forall i | 0 <= i < |bytes|
      ensures bytes[i] != 0
    {
      if bytes[i] == 0 {
        Utf8.EncodedByte(text, i);
        assert false;
      }
    }
  }

  // Exactly the frames of command 18 and 132 bytes change, and of these the ones with a mapped
  // port: to that port's endpoint on this host, with the peer's id as it was.
  lemma FrameRewrites(f: Frame, ports: PortMap)
    ensures f.cmd != 18 || |f.payload| != 132 ==> RewriteFrame(f, ports) == f
    ensures f.cmd == 18 && |f.payload| == 132 ==>
              && RewriteFrame(f, ports).cmd == 18
              && var p := PortOf(f.payload);
                 RewriteFrame(f, ports).payload
                 == if p.Some? && p.value in ports then f.payload[..4] + LocalEndpoint(ports[p.value]) else f.payload
  {
    hide PortOf;
    hide LocalEndpoint;
  }

  // First one map, then the other where it applies.
  function Compose(m1: PortMap, m2: PortMap): PortMap {
    map p: Port | p in m1.Keys + m2.Keys ::
      if p in m1 then (if m1[p] in m2 then m2[m1[p]] else m1[p]) else m2[p]
  }

  lemma RewrittenTwice(payload: Bytes, m1: PortMap, m2: PortMap)
    requires |payload| == REGISTER_PEER_SIZE
    ensures Rewritten(Rewritten(payload, m1), m2) == Rewritten(payload, Compose(m1, m2))
  {
    hide PortOf;
    hide LocalEndpoint;
    var p := PortOf(payload);
    if p.Some? && p.value in m1 {
      var once := Rewritten(payload, m1);
      assert once[4..] == LocalEndpoint(m1[p.value]);
      LocalEndpointPort(once, m1[p.value]);
    }
  }

  // What is left of an input behind its whole frames.
  function Rest(input: Bytes): Bytes
    decreases |input|
  {
    if |input| < HEADER_SIZE || |input| < HEADER_SIZE + SizeOf(input) then input
    else Rest(input[HEADER_SIZE + SizeOf(input)..])
  }

  // A cut frame of which nothing is passed on: less than a header, or a REGISTER_PEER frame.
  predicate Swallowed(rest: Bytes) {
    |rest| < HEADER_SIZE || Registers(rest)
  }

  // Two relays in a row write what one writes through the composed map, on every stream. The
  // second ends cleanly when the first does, and also when the first swallowed a cut frame.
  lemma {:induction false} RelaysCompose(input: Bytes, m1: PortMap, m2: PortMap)
    ensures var both, one := RelayOf(RelayOf(input, m1).output, m2), RelayOf(input, Compose(m1, m2));
            && both.output == one.output && one.clean == RelayOf(input, m1).clean == (Rest(input) == [])
            && (both.clean <==> Swallowed(Rest(input)))
    decreases |input|
  {
    hide Passed;
    hide Compose;
    ShortInput(input, m1);
    ShortInput(input, Compose(m1, m2));
    if |input| < HEADER_SIZE {
      ShortInput([], m2);
    } else if |input| < HEADER_SIZE + SizeOf(input) {
      FrameStep(input, m2);
    } else {
      FrameStep(input, m1);
      FrameStep(input, Compose(m1, m2));
      var size := SizeOf(input);
      var header, payload, rest := input[..HEADER_SIZE], input[HEADER_SIZE..][..size], input[HEADER_SIZE..][size..];
      SameHeader(input, header);
      assert rest == input[HEADER_SIZE + size..];
      RelaysCompose(rest, m1, m2);
      FrameRelayed(header, payload, rest, m1, m2);
      FramePassedTwice(header, payload, m1, m2);
    }
  }

  lemma SameHeader(input: Bytes, header: Bytes)
    requires |input| >= HEADER_SIZE && header == input[..HEADER_SIZE]
    ensures SizeOf(header) == SizeOf(input) && Registers(header) == Registers(input)
  {
    assert header[1..HEADER_SIZE] == input[1..HEADER_SIZE];
  }

  lemma PassedLength(header: Bytes, payload: Bytes, ports: PortMap)
    requires |header| == HEADER_SIZE && |payload| == SizeOf(header)
    ensures |Passed(header, payload, ports)| == |payload|
  {
    hide Rewritten;
  }

  // The second relay's view of a frame the first has passed on.
  lemma FrameRelayed(header: Bytes, payload: Bytes, rest: Bytes, m1: PortMap, m2: PortMap)
    requires |header| == HEADER_SIZE && |payload| == SizeOf(header)
    ensures |Passed(header, payload, m1)| == |payload|
    ensures var once := Passed(header, payload, m1);
            var after := RelayOf(RelayOf(rest, m1).output, m2);
            RelayOf(header + once + RelayOf(rest, m1).output, m2)
            == Relayed(header + Passed(header, once, m2) + after.output, after.clean)
  {
    hide Passed;
    hide RelayOf;
    PassedLength(header, payload, m1);
    var once, more := Passed(header, payload, m1), RelayOf(rest, m1).output;
    var out := header + once + more;
    assert out[..HEADER_SIZE] == header && out[HEADER_SIZE..] == once + more;
    assert (once + more)[..|once|] == once && (once + more)[|once|..] == more;
    FrameStep(out, m2);
  }

  lemma FramePassedTwice(header: Bytes, payload: Bytes, m1: PortMap, m2: PortMap)
    requires |header| == HEADER_SIZE && |payload| == SizeOf(header)
    ensures |Passed(header, payload, m1)| == |payload|
    ensures Passed(header, Passed(header, payload, m1), m2) == Passed(header, payload, Compose(m1, m2))
  {
    hide Rewritten;
    hide Compose;
    if Registers(header) {
      RewrittenTwice(payload, m1, m2);
    }
  }
}
