/** Byte strings: little-endian numbers, first-match search and stream fragments. */
module Wire {
  import opened Results

  type Byte = b: int | 0 <= b < 256
  type Bytes = seq<Byte>

  const CR: Byte := 13
  const LF: Byte := 10
  const CRLF: Bytes := [CR, LF]

  predicate OccursAt(buf: Bytes, pattern: Bytes, i: nat) {
    i + |pattern| <= |buf| && buf[i..i + |pattern|] == pattern
  }

  // The least index `i >= from` at which `pattern` occurs whole in `buf`
  // (Rust's `buf[from..].windows(k).position(..)`, made absolute).
  function FirstMatch(buf: Bytes, pattern: Bytes, from: nat): (r: Option<nat>)
    ensures r.Some? ==> from <= r.value && OccursAt(buf, pattern, r.value)
    ensures r.Some? ==> forall i :: from <= i < r.value ==> !OccursAt(buf, pattern, i)
    ensures r.None? ==> forall i :: from <= i ==> !OccursAt(buf, pattern, i)
    decreases |buf| - from
  {
    if from + |pattern| > |buf| then None
    else if OccursAt(buf, pattern, from) then Some(from)
    else if from == |buf| then None
    else FirstMatch(buf, pattern, from + 1)
  }

  // The two facts that pin a first match down.
  lemma FirstMatchIs(buf: Bytes, pattern: Bytes, from: nat, at: nat)
    requires from <= at && OccursAt(buf, pattern, at)
    requires forall i :: from <= i < at ==> !OccursAt(buf, pattern, i)
    ensures FirstMatch(buf, pattern, from) == Some(at)
  {
    var r := FirstMatch(buf, pattern, from);
    assert r.Some?;
    assert !(r.value < at);
  }

  // What occurs in a buffer occurs there whatever follows, and the other way round
  // while it fits.
  lemma OccursLocal(buf: Bytes, more: Bytes, pattern: Bytes, i: nat)
    requires i + |pattern| <= |buf|
    ensures OccursAt(buf + more, pattern, i) == OccursAt(buf, pattern, i)
  {
    assert (buf + more)[i..i + |pattern|] == buf[i..i + |pattern|];
  }

  // A match inside a buffer is still the first one once bytes follow it.
  lemma FirstMatchStable(buf: Bytes, more: Bytes, pattern: Bytes, from: nat)
    requires FirstMatch(buf, pattern, from).Some?
    ensures FirstMatch(buf + more, pattern, from) == FirstMatch(buf, pattern, from)
  {
    var at := FirstMatch(buf, pattern, from).value;
    forall i | from <= i <= at
      ensures OccursAt(buf + more, pattern, i) == OccursAt(buf, pattern, i)
    {
      OccursLocal(buf, more, pattern, i);
    }
    FirstMatchIs(buf + more, pattern, from, at);
  }

  // A match does not depend on the bytes after it.
  lemma FirstMatchLocal(buf: Bytes, pattern: Bytes, from: nat, end: nat)
    requires FirstMatch(buf, pattern, from).Some?
    requires FirstMatch(buf, pattern, from).value + |pattern| <= end <= |buf|
    ensures FirstMatch(buf[..end], pattern, from) == FirstMatch(buf, pattern, from)
  {
    var at := FirstMatch(buf, pattern, from).value;
    assert buf == buf[..end] + buf[end..];
    forall i | from <= i <= at
      ensures OccursAt(buf[..end], pattern, i) == OccursAt(buf, pattern, i)
    {
      OccursLocal(buf[..end], buf[end..], pattern, i);
    }
    FirstMatchIs(buf[..end], pattern, from, at);
  }

  // A line: its own terminator is the first CRLF in it.
  predicate IsLine(line: Bytes) {
    FirstMatch(line + CRLF, CRLF, 0) == Some(|line|)
  }

  lemma NoLfIsLine(line: Bytes)
    requires LF !in line
    ensures IsLine(line)
  {
    var w := line + CRLF;
    forall i | 0 <= i < |line| ensures !OccursAt(w, CRLF, i) {
      assert w[i..i + 2][1] == w[i + 1];
    }
    assert w[|line|..|line| + 2] == CRLF;
    FirstMatchIs(w, CRLF, 0, |line|);
  }

  lemma OccursElements(buf: Bytes, part: Bytes, from: nat)
    requires OccursAt(buf, part, from)
    ensures forall k :: 0 <= k < |part| ==> buf[from + k] == part[k]
  {
    forall k | 0 <= k < |part| ensures buf[from + k] == part[k] {
      assert buf[from..from + |part|][k] == part[k];
    }
  }

  // A part of what occurs in a buffer occurs there, shifted.
  lemma OccursPart(buf: Bytes, part: Bytes, from: nat, pattern: Bytes, i: nat)
    requires OccursAt(buf, part, from) && i + |pattern| <= |part|
    ensures OccursAt(buf, pattern, from + i) == OccursAt(part, pattern, i)
  {
    OccursElements(buf, part, from);
    assert buf[from + i..from + i + |pattern|] == part[i..i + |pattern|];
  }

  lemma OccursJoin(buf: Bytes, a: Bytes, b: Bytes, from: nat)
    ensures OccursAt(buf, a + b, from) <==> OccursAt(buf, a, from) && OccursAt(buf, b, from + |a|)
  {
    if OccursAt(buf, a + b, from) {
      OccursPart(buf, a + b, from, a, 0);
      OccursPart(buf, a + b, from, b, |a|);
    }
    if OccursAt(buf, a, from) && OccursAt(buf, b, from + |a|) {
      assert buf[from..from + |a + b|] == a + b;
    }
  }

  // What is first in `part` is first in a buffer that holds `part` at `from`.
  lemma FirstMatchInside(buf: Bytes, from: nat, part: Bytes, pattern: Bytes)
    requires OccursAt(buf, part, from)
    requires FirstMatch(part, pattern, 0).Some?
    ensures FirstMatch(buf, pattern, from) == Some(from + FirstMatch(part, pattern, 0).value)
  {
    var at := FirstMatch(part, pattern, 0).value;
    forall i | 0 <= i <= at
      ensures OccursAt(buf, pattern, from + i) == OccursAt(part, pattern, i)
    {
      OccursPart(buf, part, from, pattern, i);
    }
    forall j | from <= j < from + at ensures !OccursAt(buf, pattern, j) {
      assert OccursAt(buf, pattern, from + (j - from)) == OccursAt(part, pattern, j - from);
    }
    FirstMatchIs(buf, pattern, from, from + at);
  }

  // The bytes from `from` up to the end of a first match, seen on their own.
  lemma FirstMatchAlone(buf: Bytes, pattern: Bytes, from: nat)
    requires FirstMatch(buf, pattern, from).Some?
    ensures var at := FirstMatch(buf, pattern, from).value;
            FirstMatch(buf[from..at + |pattern|], pattern, 0) == Some(at - from)
  {
    hide FirstMatch;
    var at := FirstMatch(buf, pattern, from).value;
    var part := buf[from..at + |pattern|];
    assert OccursAt(buf, part, from);
    FirstInPart(buf, part, from, pattern, at - from);
  }

  lemma FirstInPart(buf: Bytes, part: Bytes, from: nat, pattern: Bytes, length: nat)
    requires OccursAt(buf, part, from) && |part| == length + |pattern|
    requires OccursAt(buf, pattern, from + length)
    requires forall j :: from <= j < from + length ==> !OccursAt(buf, pattern, j)
    ensures FirstMatch(part, pattern, 0) == Some(length)
  {
    hide OccursAt;
    hide FirstMatch;
    forall i | 0 <= i < length
      ensures !OccursAt(part, pattern, i)
    {
      OccursPart(buf, part, from, pattern, i);
    }
    OccursPart(buf, part, from, pattern, length);
    FirstMatchIs(part, pattern, 0, length);
  }

  /* ----- little-endian numbers ----- */

  function Pow256(width: nat): (p: nat)
    ensures p > 0
  {
    if width == 0 then 1 else 256 * Pow256(width - 1)
  }

  lemma Widths()
    ensures Pow256(1) == 256 && Pow256(2) == 0x1_0000 && Pow256(4) == 0x1_0000_0000
    ensures Pow256(8) == 0x1_0000_0000_0000_0000
  {
    assert Pow256(1) == 256 * Pow256(0);
    assert Pow256(2) == 256 * Pow256(1);
    assert Pow256(3) == 256 * Pow256(2);
    assert Pow256(4) == 256 * Pow256(3);
    assert Pow256(5) == 256 * Pow256(4);
    assert Pow256(6) == 256 * Pow256(5);
    assert Pow256(7) == 256 * Pow256(6);
    assert Pow256(8) == 256 * Pow256(7);
  }

  function ToLe(n: nat, width: nat): (bytes: Bytes)
    ensures |bytes| == width
  {
    if width == 0 then [] else [n % 256] + ToLe(n / 256, width - 1)
  }

  function FromLe(bytes: Bytes): (n: nat)
    ensures n < Pow256(|bytes|)
  {
    if bytes == [] then 0 else bytes[0] + 256 * FromLe(bytes[1..])
  }

  lemma {:induction false} LeRoundTrip(n: nat, width: nat)
    requires n < Pow256(width)
    ensures FromLe(ToLe(n, width)) == n
  {
    if width > 0 {
      LeRoundTrip(n / 256, width - 1);
      assert ToLe(n, width)[1..] == ToLe(n / 256, width - 1);
    }
  }

  lemma {:induction false} LeOfFrom(bytes: Bytes)
    ensures ToLe(FromLe(bytes), |bytes|) == bytes
  {
    if bytes != [] {
      LeOfFrom(bytes[1..]);
      assert bytes == [bytes[0]] + bytes[1..];
    }
  }

  // The least significant byte first.
  lemma KnownNumber()
    ensures FromLe([0x78, 0x56, 0x34, 0x12]) == 0x12345678
    ensures ToLe(0x12345678, 4) == [0x78, 0x56, 0x34, 0x12]
  {
    var bytes: Bytes := [0x78, 0x56, 0x34, 0x12];
    assert bytes[1..] == [0x56, 0x34, 0x12] && bytes[1..][1..] == [0x34, 0x12];
    assert bytes[1..][1..][1..] == [0x12] && bytes[1..][1..][1..][1..] == [];
    assert FromLe([0x12]) == 0x12 && FromLe([0x34, 0x12]) == 0x1234 && FromLe([0x56, 0x34, 0x12]) == 0x123456;
    LeOfFrom(bytes);
  }

  /* ----- streams cut into reads ----- */

  function Concat(fragments: seq<Bytes>): Bytes {
    if fragments == [] then [] else fragments[0] + Concat(fragments[1..])
  }
}
