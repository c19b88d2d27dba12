/** UTF-8 (RFC 3629): the strict decoder of Rust's `str::from_utf8` and its inverse. */
module Utf8 {
  import opened Results
  import opened Wire

  datatype Scalar = Scalar(c: char, width: nat)

  function EncodeChar(c: char): (bytes: Bytes)
    ensures 1 <= |bytes| <= 4
  {
    var n := c as int;
    if n < 0x80 then [n]
    else if n < 0x800 then [0xC0 + n / 64, 0x80 + n % 64]
    else if n < 0x1_0000 then [0xE0 + n / 4096, 0x80 + n / 64 % 64, 0x80 + n % 64]
    else [0xF0 + n / 262144, 0x80 + n / 4096 % 64, 0x80 + n / 64 % 64, 0x80 + n % 64]
  }

  function Encode(s: string): (bytes: Bytes)
    ensures |bytes| >= |s|
  {
    if s == [] then [] else EncodeChar(s[0]) + Encode(s[1..])
  }

  predicate Continues(bytes: Bytes, count: nat) {
    count < |bytes| && forall i :: 1 <= i <= count ==> 0x80 <= bytes[i] < 0xC0
  }

  // The six payload bits of a continuation byte.
  function Payload(bytes: Bytes, i: nat): int
    requires i < |bytes|
  {
    var b: int := bytes[i];
    b - 0x80
  }

  // The first scalar value and its width; None for overlong forms, surrogates,
  // values above U+10FFFF, stray continuation bytes and truncated sequences.
  function DecodeChar(bytes: Bytes): (r: Option<Scalar>)
    requires bytes != []
    ensures r.Some? ==> 1 <= r.value.width <= |bytes|
  {
    var lead: int := bytes[0];
    if lead < 0x80 then Some(Scalar(lead as char, 1))
    else if 0xC2 <= lead < 0xE0 && Continues(bytes, 1) then
      Some(Scalar(((lead - 0xC0) * 64 + Payload(bytes, 1)) as char, 2))
    else if 0xE0 <= lead < 0xF0 && Continues(bytes, 2) then
      var n := (lead - 0xE0) * 4096 + Payload(bytes, 1) * 64 + Payload(bytes, 2);
      if n < 0x800 || 0xD800 <= n < 0xE000 then None else Some(Scalar(n as char, 3))
    else if 0xF0 <= lead < 0xF5 && Continues(bytes, 3) then
      var n := (lead - 0xF0) * 262144 + Payload(bytes, 1) * 4096 + Payload(bytes, 2) * 64 + Payload(bytes, 3);
      if n < 0x1_0000 || n >= 0x11_0000 then None else Some(Scalar(n as char, 4))
    else None
  }

  function Decode(bytes: Bytes): (r: Option<string>)
    ensures r.Some? ==> |r.value| <= |bytes|
  {
    if bytes == [] then Some([])
    else
      match DecodeChar(bytes)
      case None => None
      case Some(s) =>
        match Decode(bytes[s.width..])
        case None => None
        case Some(rest) => Some([s.c] + rest)
  }

  // Base-64 digits put a number back together.
  lemma Digits(n: nat)
    ensures n == n / 64 * 64 + n % 64
    ensures n / 64 == n / 4096 * 64 + n / 64 % 64
    ensures n / 4096 == n / 262144 * 64 + n / 4096 % 64
  {}

  lemma DecodeEncodedChar(c: char, more: Bytes)
    ensures DecodeChar(EncodeChar(c) + more) == Some(Scalar(c, |EncodeChar(c)|))
  {
    var n := c as int;
    var e := EncodeChar(c);
    var b := e + more;
    assert forall i :: 0 <= i < |e| ==> b[i] == e[i];
    Digits(n);
    if n < 0x80 {
    } else if n < 0x800 {
      assert Continues(b, 1);
    } else if n < 0x1_0000 {
      DecodeThree(c, b);
    } else {
      DecodeFour(c, b);
    }
  }

  lemma DecodeThree(c: char, b: Bytes)
    requires 0x800 <= c as int < 0x1_0000 && EncodeChar(c) <= b
    ensures DecodeChar(b) == Some(Scalar(c, 3))
  {
    var n := c as int;
    Digits(n);
    assert b[0] == 0xE0 + n / 4096 && b[1] == 0x80 + n / 64 % 64 && b[2] == 0x80 + n % 64;
    assert Continues(b, 2);
  }

  lemma DecodeFour(c: char, b: Bytes)
    requires 0x1_0000 <= c as int && EncodeChar(c) <= b
    ensures DecodeChar(b) == Some(Scalar(c, 4))
  {
    var n := c as int;
    Digits(n);
    assert b[0] == 0xF0 + n / 262144 && b[1] == 0x80 + n / 4096 % 64;
    assert b[2] == 0x80 + n / 64 % 64 && b[3] == 0x80 + n % 64;
    assert Continues(b, 3);
    assert Payload(b, 1) == n / 4096 % 64 && Payload(b, 2) == n / 64 % 64 && Payload(b, 3) == n % 64;
  }

  lemma {:induction false} RoundTrip(s: string)
    ensures Decode(Encode(s)) == Some(s)
  {
    if s != [] {
      DecodeEncodedChar(s[0], Encode(s[1..]));
      RoundTrip(s[1..]);
      var b := Encode(s);
      assert b[|EncodeChar(s[0])|..] == Encode(s[1..]);
      assert [s[0]] + s[1..] == s;
    }
  }

  lemma {:induction false} EncodeAppend(a: string, b: string)
    ensures Encode(a + b) == Encode(a) + Encode(b)
    decreases |a|
  {
    if a == [] {
      assert a + b == b;
    } else {
      assert (a + b)[1..] == a[1..] + b;
      EncodeAppend(a[1..], b);
    }
  }

  /* ----- ASCII text is its own encoding ----- */

  predicate IsAscii(s: string) {
    forall c :: c in s ==> c as int < 0x80
  }

  lemma {:induction false} EncodeAscii(s: string)
    requires IsAscii(s)
    ensures |Encode(s)| == |s|
    ensures forall i :: 0 <= i < |s| ==> Encode(s)[i] == s[i] as int
  {
    if s != [] {
      assert forall c :: c in s[1..] ==> c in s;
      assert s[0] in s;
      EncodeAscii(s[1..]);
    }
  }

  // Every byte below 0x80 of an encoding is a character of the text.
  lemma {:induction false} EncodedByte(s: string, i: nat)
    requires i < |Encode(s)| && Encode(s)[i] < 0x80
    ensures exists k :: 0 <= k < |s| && s[k] as int == Encode(s)[i]
  {
    var first := EncodeChar(s[0]);
    if i < |first| {
      assert Encode(s)[i] == first[i];
      assert first[i] == s[0] as int;
    } else {
      EncodedByte(s[1..], i - |first|);
      var k :| 0 <= k < |s[1..]| && s[1..][k] as int == Encode(s[1..])[i - |first|];
      assert s[k + 1] as int == Encode(s)[i];
    }
  }

  // Base-64 digits are read back.
  lemma TwoDigits(high: nat, low: nat)
    requires low < 64
    ensures (high * 64 + low) / 64 == high && (high * 64 + low) % 64 == low
  {}

  lemma DecodedTwo(bytes: Bytes)
    requires bytes != [] && DecodeChar(bytes).Some? && DecodeChar(bytes).value.width == 2
    ensures EncodeChar(DecodeChar(bytes).value.c) == bytes[..2]
  {
    TwoDigits(bytes[0] - 0xC0, bytes[1] - 0x80);
  }

  lemma DecodedThree(bytes: Bytes)
    requires bytes != [] && DecodeChar(bytes).Some? && DecodeChar(bytes).value.width == 3
    ensures EncodeChar(DecodeChar(bytes).value.c) == bytes[..3]
  {
    var n := DecodeChar(bytes).value.c as int;
    var lead: int, next: int := bytes[0], bytes[1];
    var high: nat := (lead - 0xE0) * 64 + (next - 0x80);
    TwoDigits(high, bytes[2] - 0x80);
    TwoDigits(bytes[0] - 0xE0, bytes[1] - 0x80);
    Digits(n);
    assert n / 4096 == bytes[0] - 0xE0;
  }

  lemma DecodedFour(bytes: Bytes)
    requires bytes != [] && DecodeChar(bytes).Some? && DecodeChar(bytes).value.width == 4
    ensures EncodeChar(DecodeChar(bytes).value.c) == bytes[..4]
  {
    var n := DecodeChar(bytes).value.c as int;
    var lead: int, next: int, third: int := bytes[0], bytes[1], bytes[2];
    var top: nat := (lead - 0xF0) * 64 + (next - 0x80);
    var high: nat := top * 64 + (third - 0x80);
    TwoDigits(high, bytes[3] - 0x80);
    TwoDigits(top, bytes[2] - 0x80);
    TwoDigits(bytes[0] - 0xF0, bytes[1] - 0x80);
    Digits(n);
    assert n / 64 == high && n / 4096 == top && n / 262144 == bytes[0] - 0xF0;
  }

  lemma DecodedCharIs(bytes: Bytes)
    requires bytes != [] && DecodeChar(bytes).Some?
    ensures var s := DecodeChar(bytes).value; EncodeChar(s.c) == bytes[..s.width]
  {
    var width := DecodeChar(bytes).value.width;
    if width == 2 {
      DecodedTwo(bytes);
    } else if width == 3 {
      DecodedThree(bytes);
    } else if width == 4 {
      DecodedFour(bytes);
    }
  }

  // Decoding accepts encodings only: one text, one sequence of bytes.
  lemma {:induction false} DecodeIsStrict(bytes: Bytes)
    requires Decode(bytes).Some?
    ensures Encode(Decode(bytes).value) == bytes
    decreases |bytes|
  {
    hide EncodeChar;
    hide DecodeChar;
    if bytes != [] {
      var s := DecodeChar(bytes).value;
      DecodedCharIs(bytes);
      DecodeIsStrict(bytes[s.width..]);
      assert bytes == bytes[..s.width] + bytes[s.width..];
      var text := Decode(bytes).value;
      assert text[1..] == Decode(bytes[s.width..]).value;
    }
  }

  // The examples of section 7 of RFC 3629, character by character.
  lemma KnownCharacters()
    ensures EncodeChar('A') == [0x41]
    ensures EncodeChar('\U{0391}') == [0xCE, 0x91]
    ensures EncodeChar('\U{2262}') == [0xE2, 0x89, 0xA2]
    ensures EncodeChar('\U{65E5}') == [0xE6, 0x97, 0xA5]
    ensures EncodeChar('\U{233B4}') == [0xF0, 0xA3, 0x8E, 0xB4]
  {}
}
