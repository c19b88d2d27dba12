/** The string operations the program takes from Rust's standard library. */
module Text {
  import opened Results

  // The characters that `char::is_whitespace` accepts.
  predicate IsSpace(c: char) {
    var n := c as int;
    || 0x09 <= n <= 0x0D || n == 0x20 || n == 0x85 || n == 0xA0 || n == 0x1680
    || 0x2000 <= n <= 0x200A || n == 0x2028 || n == 0x2029 || n == 0x202F
    || n == 0x205F || n == 0x3000
  }

  function TrimStart(s: string): string {
    if s != [] && IsSpace(s[0]) then TrimStart(s[1..]) else s
  }

  function TrimEnd(s: string): string {
    if s != [] && IsSpace(s[|s| - 1]) then TrimEnd(s[..|s| - 1]) else s
  }

  function Trim(s: string): string {
    TrimEnd(TrimStart(s))
  }

  predicate Trimmed(s: string) {
    s != [] ==> !IsSpace(s[0]) && !IsSpace(s[|s| - 1])
  }

  // The index of the first `c` in `s`, or |s|.
  function IndexOf(s: string, c: char): (i: nat)
    ensures i <= |s|
    ensures c !in s[..i]
    ensures i < |s| ==> s[i] == c
  {
    if s == [] || s[0] == c then 0
    else
      var i := 1 + IndexOf(s[1..], c);
      assert s[..i] == [s[0]] + s[1..][..i - 1];
      i
  }

  lemma IndexOfIs(s: string, c: char, i: nat)
    requires i <= |s| && c !in s[..i] && (i < |s| ==> s[i] == c)
    ensures IndexOf(s, c) == i
  {
    assert forall j :: 0 <= j < i ==> s[j] in s[..i];
    assert forall j :: 0 <= j < IndexOf(s, c) ==> s[j] in s[..IndexOf(s, c)];
  }

  // A text cut at the first `c`.
  lemma CutAt(a: string, c: char, b: string)
    requires c !in a
    ensures var s := a + [c] + b;
            IndexOf(s, c) == |a| && s[..|a|] == a && s[|a| + 1..] == b
  {
    var s := a + [c] + b;
    assert s[..|a|] == a && s[|a|] == c;
    IndexOfIs(s, c, |a|);
  }

  // `s.split(c).next()`
  function BeforeFirst(s: string, c: char): string {
    s[..IndexOf(s, c)]
  }

  // `s.rsplit(c).next()`
  function AfterLast(s: string, c: char): string {
    if s == [] || s[|s| - 1] == c then ""
    else AfterLast(s[..|s| - 1], c) + [s[|s| - 1]]
  }

  lemma {:induction false} AfterLastIs(before: string, c: char, tail: string)
    requires c !in tail
    ensures AfterLast(before + [c] + tail, c) == tail
  {
    var s := before + [c] + tail;
    if tail == [] {
      assert s[|s| - 1] == c;
    } else {
      assert tail[|tail| - 1] in tail;
      assert s[..|s| - 1] == before + [c] + tail[..|tail| - 1];
      AfterLastIs(before, c, tail[..|tail| - 1]);
      assert tail == tail[..|tail| - 1] + [tail[|tail| - 1]];
    }
  }

  lemma {:induction false} AfterNone(s: string, c: char)
    requires c !in s
    ensures AfterLast(s, c) == s
  {
    if s != [] {
      assert s[|s| - 1] in s && forall d :: d in s[..|s| - 1] ==> d in s;
      AfterNone(s[..|s| - 1], c);
    }
  }

  // `s.split(c)`
  function Split(s: string, c: char): (parts: seq<string>)
    ensures parts != []
    decreases |s|
  {
    var i := IndexOf(s, c);
    if i == |s| then [s] else [s[..i]] + Split(s[i + 1..], c)
  }

  function Joined(parts: seq<string>, c: char): string {
    if parts == [] then "" else if |parts| == 1 then parts[0] else parts[0] + [c] + Joined(parts[1..], c)
  }

  // The parts hold no separator, and with separators between them they are the text.
  lemma {:induction false} SplitIsJoined(s: string, c: char)
    ensures Joined(Split(s, c), c) == s && forall part :: part in Split(s, c) ==> c !in part
    decreases |s|
  {
    hide IndexOf;
    var i := IndexOf(s, c);
    if i == |s| {
      assert s[..i] == s;
    } else {
      var first, rest := s[..i], Split(s[i + 1..], c);
      SplitIsJoined(s[i + 1..], c);
      assert Split(s, c) == [first] + rest && ([first] + rest)[1..] == rest;
      hide Split;
      assert Joined([first] + rest, c) == first + [c] + s[i + 1..];
      assert s == first + [c] + s[i + 1..];
    }
  }

  const UPPER_LETTERS := "ABCDEFGHIJKLMNOPQRSTUVWXYZ"
  const LOWER_LETTERS := "abcdefghijklmnopqrstuvwxyz"

  // Each capital becomes its small letter, and nothing else changes.
  lemma Lowers(s: string, i: nat)
    requires i < |s|
    ensures forall k :: 0 <= k < 26 && s[i] == UPPER_LETTERS[k] ==> Lower(s)[i] == LOWER_LETTERS[k]
    ensures s[i] !in UPPER_LETTERS ==> Lower(s)[i] == s[i]
  {
    if 'A' <= s[i] <= 'Z' {
      var k := s[i] as int - 'A' as int;
      assert UPPER_LETTERS[k] == s[i];
    }
  }

  function LowerChar(c: char): char {
    if 'A' <= c <= 'Z' then (c as int + 32) as char else c
  }

  // `s.to_ascii_lowercase()`
  function Lower(s: string): (r: string)
    ensures |r| == |s|
  {
    seq(|s|, i requires 0 <= i < |s| => LowerChar(s[i]))
  }

  // `a.eq_ignore_ascii_case(b)`
  predicate SameIgnoringCase(a: string, b: string) {
    Lower(a) == Lower(b)
  }

  predicate HasPrefix(s: string, prefix: string) {
    prefix <= s
  }

  predicate HasSuffix(s: string, suffix: string) {
    |suffix| <= |s| && s[|s| - |suffix|..] == suffix
  }

  predicate Contains(s: string, part: string) {
    exists i :: 0 <= i <= |s| - |part| && s[i..][..|part|] == part
  }

  /* ----- numbers ----- */

  // The digit value of `c`, or 99.
  function DigitValue(c: char): (d: nat)
    ensures d < 16 || d == 99
  {
    if '0' <= c <= '9' then c as int - '0' as int
    else if 'a' <= c <= 'f' then c as int - 'a' as int + 10
    else if 'A' <= c <= 'F' then c as int - 'A' as int + 10
    else 99
  }

  predicate AllDigits(s: string, radix: nat) {
    forall c :: c in s ==> DigitValue(c) < radix
  }

  function ValueOf(s: string, radix: nat): nat {
    if s == [] then 0 else ValueOf(s[..|s| - 1], radix) * radix + DigitValue(s[|s| - 1])
  }

  // `uN::from_str_radix(s, radix)` for an unsigned type holding the numbers below `limit`:
  // an optional plus sign and at least one digit; anything else, or an overflow, is an error.
  function ParseUnsigned(s: string, radix: nat, limit: nat): (r: Option<nat>)
    ensures r.Some? ==> r.value < limit
  {
    var digits := if s != [] && s[0] == '+' then s[1..] else s;
    if digits != [] && AllDigits(digits, radix) && ValueOf(digits, radix) < limit
    then Some(ValueOf(digits, radix))
    else None
  }

  const U16_LIMIT: nat := 0x1_0000
  const U32_LIMIT: nat := 0x1_0000_0000
  const U64_LIMIT: nat := 0x1_0000_0000_0000_0000

  function DecimalDigit(d: nat): (c: char)
    requires d < 10
    ensures '0' <= c <= '9' && DigitValue(c) == d
  {
    ('0' as int + d) as char
  }

  // The minimal decimal text of `n` (`n.to_string()`).
  function Decimal(n: nat): (s: string)
    ensures s != []
    ensures forall c :: c in s ==> '0' <= c <= '9'
  {
    if n < 10 then [DecimalDigit(n)] else Decimal(n / 10) + [DecimalDigit(n % 10)]
  }

  lemma {:induction false} DecimalValue(n: nat)
    ensures ValueOf(Decimal(n), 10) == n
  {
    var s := Decimal(n);
    if n < 10 {
      assert s[..|s| - 1] == [];
    } else {
      assert s[..|s| - 1] == Decimal(n / 10);
      DecimalValue(n / 10);
    }
  }

  // Printing a number and parsing the text gives the number back.
  lemma DecimalRoundTrip(n: nat, limit: nat)
    requires n < limit
    ensures ParseUnsigned(Decimal(n), 10, limit) == Some(n)
  {
    DecimalValue(n);
    assert Decimal(n)[0] in Decimal(n);
  }

  lemma DecimalTrimmed(n: nat)
    ensures Trim(Decimal(n)) == Decimal(n)
  {
    var s := Decimal(n);
    assert s[0] in s && s[|s| - 1] in s;
  }

  lemma TrimNoSpace(s: string)
    requires Trimmed(s)
    ensures Trim(s) == s
  {}

  predicate Blank(s: string) {
    forall i :: 0 <= i < |s| ==> IsSpace(s[i])
  }

  lemma {:induction false} TrimStartIs(before: string, s: string)
    requires Blank(before) && (s != [] ==> !IsSpace(s[0]))
    ensures TrimStart(before + s) == s
    decreases |before|
  {
    if before == [] {
      assert before + s == s;
    } else {
      assert (before + s)[1..] == before[1..] + s;
      TrimStartIs(before[1..], s);
    }
  }

  lemma {:induction false} TrimEndIs(s: string, after: string)
    requires Blank(after) && (s != [] ==> !IsSpace(s[|s| - 1]))
    ensures TrimEnd(s + after) == s
    decreases |after|
  {
    if after == [] {
      assert s + after == s;
    } else {
      assert (s + after)[..|s + after| - 1] == s + after[..|after| - 1];
      TrimEndIs(s, after[..|after| - 1]);
    }
  }

  // Trimming takes the white space off both ends and nothing else.
  lemma TrimIs(before: string, s: string, after: string)
    requires Blank(before) && Blank(after) && Trimmed(s)
    ensures Trim(before + s + after) == s
  {
    if s == [] {
      TrimStartIs(before + s + after, []);
      assert before + s + after + [] == before + s + after;
    } else {
      assert before + s + after == before + (s + after);
      TrimStartIs(before, s + after);
      TrimEndIs(s, after);
    }
  }

  // The 25 characters of Unicode's White_Space property.
  const WHITE: string :=
    "\t\n\U{b}\U{c}\r \U{85}\U{a0}\U{1680}\U{2000}\U{2001}\U{2002}\U{2003}\U{2004}\U{2005}"
    + "\U{2006}\U{2007}\U{2008}\U{2009}\U{200a}\U{2028}\U{2029}\U{202f}\U{205f}\U{3000}"

  lemma WhiteSpace(c: char)
    ensures IsSpace(c) <==> c in WHITE
  {
    assert |WHITE| == 25;
    assert WHITE[..6] == "\t\n\U{b}\U{c}\r ";
  }

  /* ----- printed hexadecimal numbers ----- */

  const LOWER_HEX := "0123456789abcdef"
  const UPPER_HEX := "0123456789ABCDEF"

  // `n` in the digits of an alphabet, without leading zeros.
  function HexText(n: nat, alphabet: string): (s: string)
    requires |alphabet| == 16
    ensures s != []
  {
    if n < 16 then [alphabet[n]] else HexText(n / 16, alphabet) + [alphabet[n % 16]]
  }

  lemma HexDigits(i: nat)
    requires i < 16
    ensures DigitValue(LOWER_HEX[i]) == DigitValue(UPPER_HEX[i]) == i
  {}

  // And no other characters are digits.
  lemma OnlyHexDigits(c: char)
    ensures DigitValue(c) < 16 <==> c in LOWER_HEX || c in UPPER_HEX
    ensures DigitValue(c) < 10 <==> c in "0123456789"
  {
    var d := DigitValue(c);
    if d < 16 {
      HexDigits(d);
      assert c == LOWER_HEX[d] || c == UPPER_HEX[d];
    }
    if c in LOWER_HEX {
      var i :| 0 <= i < 16 && LOWER_HEX[i] == c;
      HexDigits(i);
    }
    if c in UPPER_HEX {
      var i :| 0 <= i < 16 && UPPER_HEX[i] == c;
      HexDigits(i);
    }
    if d < 10 {
      assert c == "0123456789"[d];
    }
  }

  predicate IsHexAlphabet(alphabet: string) {
    alphabet == LOWER_HEX || alphabet == UPPER_HEX
  }

  lemma {:induction false} ZerosFirst(zeros: string, s: string, radix: nat)
    requires forall i :: 0 <= i < |zeros| ==> zeros[i] == '0'
    requires radix > 0 && AllDigits(s, radix)
    ensures AllDigits(zeros + s, radix) && ValueOf(zeros + s, radix) == ValueOf(s, radix)
    decreases |zeros| + |s|
  {
    var all := zeros + s;
    if s != [] {
      assert all[..|all| - 1] == zeros + s[..|s| - 1];
      ZerosFirst(zeros, s[..|s| - 1], radix);
    } else if zeros != [] {
      assert all[..|all| - 1] == zeros[..|zeros| - 1] + s;
      ZerosFirst(zeros[..|zeros| - 1], s, radix);
    }
  }

  lemma {:induction false} HexValue(n: nat, alphabet: string)
    requires IsHexAlphabet(alphabet)
    ensures AllDigits(HexText(n, alphabet), 16) && ValueOf(HexText(n, alphabet), 16) == n
    ensures n > 0 ==> |HexText(n, alphabet)| <= n
  {
    HexDigits(n % 16);
    if n < 16 {
      assert [alphabet[n]][..0] == [];
    } else {
      HexValue(n / 16, alphabet);
      var s := HexText(n, alphabet);
      assert s[..|s| - 1] == HexText(n / 16, alphabet);
    }
  }

  // Only decimal digits make a decimal number.
  lemma OnlyDecimalDigits(s: string, limit: nat)
    ensures ParseUnsigned(s, 10, limit).Some? ==>
              var digits := if s != "" && s[0] == '+' then s[1..] else s;
              digits != "" && forall c :: c in digits ==> c in "0123456789"
  {
    hide ValueOf;
    forall c: char
      ensures DigitValue(c) < 10 ==> c in "0123456789"
    {
      OnlyHexDigits(c);
    }
  }

  lemma KnownWidths()
    ensures U16_LIMIT == 65_536 && U32_LIMIT == 4_294_967_296 && U64_LIMIT == 18_446_744_073_709_551_616
  {}
}
