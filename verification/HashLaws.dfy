/**
 What the routing hashes tell apart: each is a fold of 64-bit words over a list of tokens, and no
 step of it loses anything.
 */
module HashLaws {
  import opened Results
  import opened Wire
  import opened Text
  import opened Json
  import opened TextOrder
  import opened PrefixHash
  import Utf8

  /* ----- multiplication by an odd number loses nothing modulo 2^64 ----- */

  lemma Residues(a: int, b: int, q: int, n: int)
    requires n > 0 && a - b == n * q && -n < a - b < n
    ensures a == b
  {}

  lemma SameResidue(x: int, y: int, n: int)
    requires n > 0 && x % n == y % n
    ensures x - y == n * (x / n - y / n)
  {}

  lemma Undone(a: int, b: int, p: int, inverse: int, k: int, n: int, m: int)
    requires p * inverse == 1 + k * n && (a - b) * p == n * m
    ensures a - b == n * (m * inverse - (a - b) * k)
  {
    assert (a - b) * p * inverse == n * m * inverse;
    assert (a - b) * p * inverse == (a - b) * (1 + k * n);
  }

  lemma TimesLosesNothing(a: Hash, b: Hash, p: nat, inverse: nat, k: nat)
    requires p * inverse == 1 + k * U64_LIMIT
    requires a * p % U64_LIMIT == b * p % U64_LIMIT
    ensures a == b
  {
    var n := U64_LIMIT;
    SameResidue(a * p, b * p, n);
    var m := a * p / n - b * p / n;
    assert (a - b) * p == n * m;
    Undone(a, b, p, inverse, k, n, m);
    Residues(a, b, m * inverse - (a - b) * k, n);
  }

  /* ----- the hash of a text ----- */

  lemma {:induction false} XorLosesNothing(a: nat, b: nat, c: nat, bits: nat)
    requires b < Pow2(bits) && c < Pow2(bits)
    ensures Xor(a, b, bits) == Xor(a, c, bits) ==> b == c
  {
    if bits > 0 {
      XorLosesNothing(a / 2, b / 2, c / 2, bits - 1);
      assert b == 2 * (b / 2) + b % 2 && c == 2 * (c / 2) + c % 2;
    }
  }

  lemma {:induction false} XorCommutes(a: nat, b: nat, bits: nat)
    ensures Xor(a, b, bits) == Xor(b, a, bits)
  {
    if bits > 0 {
      XorCommutes(a / 2, b / 2, bits - 1);
    }
  }

  lemma WordLosesNothing(x: Hash, y: Hash, b: Byte, c: Byte)
    requires WithByte(x, b) == WithByte(y, c)
    ensures x == y <==> b == c
  {
    assert Pow2(8) == 256;
    var u, v := Xor(x % 256, b, 8), Xor(y % 256, c, 8);
    hide Xor;
    hide Pow2;
    assert x / 256 == y / 256 && u == v by {
      assert WithByte(x, b) == 256 * (x / 256) + u && WithByte(y, c) == 256 * (y / 256) + v;
    }
    XorLosesNothing(x % 256, b, c, 8);
    XorLosesNothing(b, x % 256, y % 256, 8);
    XorCommutes(x % 256, b, 8);
    XorCommutes(y % 256, b, 8);
    assert x == 256 * (x / 256) + x % 256 && y == 256 * (y / 256) + y % 256;
  }

  // Neither the accumulator nor the byte is lost.
  lemma ByteLosesNothing(x: Hash, y: Hash, b: Byte, c: Byte)
    requires HashByte(x, b) == HashByte(y, c)
    ensures x == y <==> b == c
  {
    hide WithByte;
    assert FNV_PRIME * 0xce965057aff6957b == 1 + 0xce9650590f * U64_LIMIT;
    TimesLosesNothing(WithByte(x, b), WithByte(y, c), FNV_PRIME, 0xce965057aff6957b, 0xce9650590f);
    WordLosesNothing(x, y, b, c);
  }

  lemma {:induction false} BytesLoseNothing(x: Hash, y: Hash, bytes: Bytes)
    ensures HashBytesFrom(x, bytes) == HashBytesFrom(y, bytes) ==> x == y
    decreases |bytes|
  {
    hide HashByte;
    if bytes != [] {
      BytesLoseNothing(HashByte(x, bytes[0]), HashByte(y, bytes[0]), bytes[1..]);
      if HashByte(x, bytes[0]) == HashByte(y, bytes[0]) {
        ByteLosesNothing(x, y, bytes[0], bytes[0]);
      }
    }
  }

  lemma {:induction false} BytesAppend(x: Hash, a: Bytes, b: Bytes)
    ensures HashBytesFrom(x, a + b) == HashBytesFrom(HashBytesFrom(x, a), b)
    decreases |a|
  {
    hide HashByte;
    if a == [] {
      assert a + b == b;
    } else {
      assert (a + b)[1..] == a[1..] + b;
      BytesAppend(HashByte(x, a[0]), a[1..], b);
    }
  }

  // Bytes that differ in one place hash differently.
  lemma OneByteApart(x: Hash, before: Bytes, b: Byte, c: Byte, after: Bytes)
    ensures HashBytesFrom(x, before + [b] + after) == HashBytesFrom(x, before + [c] + after) <==> b == c
  {
    hide HashByte;
    var h := HashBytesFrom(x, before);
    BytesAppend(x, before + [b], after);
    BytesAppend(x, before + [c], after);
    BytesAppend(x, before, [b]);
    BytesAppend(x, before, [c]);
    assert [b][1..] == [] && [c][1..] == [];
    assert HashBytesFrom(h, [b]) == HashByte(h, b) && HashBytesFrom(h, [c]) == HashByte(h, c);
    BytesLoseNothing(HashByte(h, b), HashByte(h, c), after);
    if HashByte(h, b) == HashByte(h, c) {
      ByteLosesNothing(h, h, b, c);
    }
  }

  // So do texts that differ in one ASCII character.
  lemma OneLetterApart(before: string, b: char, c: char, after: string)
    requires b < 128 as char && c < 128 as char
    ensures HashText(before + [b] + after) == HashText(before + [c] + after) <==> b == c
  {
    hide HashBytesFrom;
    Utf8.EncodeAppend(before + [b], after);
    Utf8.EncodeAppend(before, [b]);
    Utf8.EncodeAppend(before + [c], after);
    Utf8.EncodeAppend(before, [c]);
    assert Utf8.Encode([b]) == [b as int] && Utf8.Encode([c]) == [c as int];
    OneByteApart(FNV_OFFSET, Utf8.Encode(before), b as int, c as int, Utf8.Encode(after));
  }

  lemma FirstXor()
    ensures Xor(0x25, 0x61, 8) == 0x44
  {
    assert Xor(0, 0, 1) == 0 && Xor(0, 1, 2) == 1 && Xor(1, 3, 3) == 2 && Xor(2, 6, 4) == 4;
    assert Xor(4, 0xc, 5) == 8 && Xor(9, 0x18, 6) == 0x11 && Xor(0x12, 0x30, 7) == 0x22;
  }

  lemma FirstByte()
    ensures HashByte(FNV_OFFSET, 0x61) == 0xaf63dc4c8601ec8c
  {
    FirstXor();
    hide Xor;
    assert WithByte(FNV_OFFSET, 0x61) == 0xcbf29ce484222344;
    hide WithByte;
    assert 0xcbf29ce484222344 * 0x100000001b3 == 0xcbf29ce5de * U64_LIMIT + 0xaf63dc4c8601ec8c;
  }

  // Published values of the 64-bit FNV-1a hash.
  lemma KnownHashes()
    ensures HashText("") == 0xcbf29ce484222325
    ensures HashText("a") == 0xaf63dc4c8601ec8c
  {
    FirstByte();
    hide HashByte;
    Utf8.EncodeAscii("a");
    assert Utf8.Encode("") == [];
    hide Utf8.Encode;
    var bytes: Bytes := [0x61];
    assert Utf8.Encode("a") == bytes && bytes[1..] == [];
    assert HashBytesFrom(FNV_OFFSET, bytes) == HashBytesFrom(HashByte(FNV_OFFSET, 0x61), []);
  }

  /* ----- a hash is a fold over tokens ----- */

  function Fold(acc: Hash, tokens: seq<Hash>): Hash
    decreases |tokens|
  {
    if tokens == [] then acc else Fold((31 * acc + tokens[0]) % U64_LIMIT, tokens[1..])
  }

  lemma StepLosesNothing(x: Hash, y: Hash, t: Hash, u: Hash)
    requires (31 * x + t) % U64_LIMIT == (31 * y + u) % U64_LIMIT
    ensures x == y <==> t == u
  {
    SameResidue(31 * x + t, 31 * y + u, U64_LIMIT);
    var m := (31 * x + t) / U64_LIMIT - (31 * y + u) / U64_LIMIT;
    if x == y {
      Residues(t, u, m, U64_LIMIT);
    } else if t == u {
      assert 31 * 0xef7bdef7bdef7bdf == 1 + 29 * U64_LIMIT;
      Undone(x, y, 31, 0xef7bdef7bdef7bdf, 29, U64_LIMIT, m);
      Residues(x, y, m * 0xef7bdef7bdef7bdf - (x - y) * 29, U64_LIMIT);
    }
  }

  lemma {:induction false} FoldAppend(acc: Hash, a: seq<Hash>, b: seq<Hash>)
    ensures Fold(acc, a + b) == Fold(Fold(acc, a), b)
    decreases |a|
  {
    if a == [] {
      assert a + b == b;
    } else {
      assert (a + b)[1..] == a[1..] + b;
      FoldAppend((31 * acc + a[0]) % U64_LIMIT, a[1..], b);
    }
  }

  lemma {:induction false} FoldLosesNothing(x: Hash, y: Hash, tokens: seq<Hash>)
    ensures Fold(x, tokens) == Fold(y, tokens) ==> x == y
    decreases |tokens|
  {
    if tokens != [] {
      var p, q := (31 * x + tokens[0]) % U64_LIMIT, (31 * y + tokens[0]) % U64_LIMIT;
      FoldLosesNothing(p, q, tokens[1..]);
      if p == q {
        StepLosesNothing(x, y, tokens[0], tokens[0]);
      }
    }
  }

  // One token counts, wherever it stands.
  lemma OneTokenApart(acc: Hash, before: seq<Hash>, t: Hash, u: Hash, after: seq<Hash>)
    ensures Fold(acc, before + [t] + after) == Fold(acc, before + [u] + after) <==> t == u
  {
    var h := Fold(acc, before);
    FoldAppend(acc, before + [t], after);
    FoldAppend(acc, before + [u], after);
    FoldAppend(acc, before, [t]);
    FoldAppend(acc, before, [u]);
    var p, q := (31 * h + t) % U64_LIMIT, (31 * h + u) % U64_LIMIT;
    assert [t][1..] == [] && [u][1..] == [];
    assert Fold(h, [t]) == p && Fold(h, [u]) == q;
    FoldLosesNothing(p, q, after);
    if p == q {
      StepLosesNothing(h, h, t, u);
    }
  }

  /* ----- the tokens of a value ----- */

  function Flatten(lists: seq<seq<Hash>>): seq<Hash>
    decreases |lists|
  {
    if lists == [] then [] else lists[0] + Flatten(lists[1..])
  }

  lemma {:induction false} FlattenAt(lists: seq<seq<Hash>>, i: nat)
    requires i < |lists|
    ensures Flatten(lists) == Flatten(lists[..i]) + lists[i] + Flatten(lists[i + 1..])
    decreases i
  {
    if i == 0 {
      assert Flatten(lists[..0]) + lists[0] == lists[0];
    } else {
      FlattenAt(lists[1..], i - 1);
      assert lists[1..][..i - 1] == lists[..i][1..] && lists[1..][i..] == lists[i + 1..];
      assert Flatten(lists[..i]) == lists[0] + Flatten(lists[..i][1..]);
    }
  }

  // A tag and the text of a scalar; a tag, the length and the items; a tag and, in the order of
  // the keys, each key and its value.
  ghost function Tokens(value: Json): seq<Hash>
    decreases value, 1
  {
    hide HashText;
    match value
    case Null => [HashText("null")]
    case Bool(b) => [HashText("bool"), HashText(if b then "true" else "false")]
    case Number(text) => [HashText("number"), HashText(text)]
    case String(s) => [HashText("string"), HashText(s)]
    case Array(items) => [HashText("array"), |items| % U64_LIMIT] + Flatten(ItemTokens(value))
    case Object(_) => [HashText("object")] + Flatten(MemberTokens(value))
  }

  ghost function ItemTokens(value: Json): seq<seq<Hash>>
    requires value.Array?
    decreases value, 0
  {
    seq(|value.items|, i requires 0 <= i < |value.items| => Tokens(value.items[i]))
  }

  ghost function MemberTokens(value: Json): seq<seq<Hash>>
    requires value.Object?
    decreases value, 0
  {
    var keys := SortedKeys(value.fields.Keys);
    seq(|keys|, i requires 0 <= i < |keys| =>
      assert keys[i] in Elements(keys);
      [HashText(keys[i])] + Tokens(value.fields[keys[i]]))
  }

  lemma {:induction false} ItemsAreFolded(acc: Hash, value: Json, i: nat)
    requires value.Array? && i <= |value.items|
    ensures HashItems(acc, value, i) == Fold(acc, Flatten(ItemTokens(value)[i..]))
    decreases value, 0, |value.items| - i
  {
    hide HashText;
    hide Tokens;
    var lists := ItemTokens(value);
    if i < |lists| {
      HashIsFold(acc, value.items[i]);
      ItemsAreFolded(HashValue(acc, value.items[i]), value, i + 1);
      assert lists[i..][1..] == lists[i + 1..];
      FoldAppend(acc, lists[i], Flatten(lists[i + 1..]));
    }
  }

  lemma {:induction false} MembersAreFolded(acc: Hash, value: Json, i: nat)
    requires value.Object? && i <= |SortedKeys(value.fields.Keys)|
    requires Elements(SortedKeys(value.fields.Keys)[i..]) <= value.fields.Keys
    ensures HashMembers(acc, value, SortedKeys(value.fields.Keys)[i..]) == Fold(acc, Flatten(MemberTokens(value)[i..]))
    decreases value, 0, |SortedKeys(value.fields.Keys)| - i
  {
    hide HashText;
    hide Tokens;
    hide HashValue;
    hide Fold;
    var keys, lists := SortedKeys(value.fields.Keys), MemberTokens(value);
    if i < |keys| {
      assert keys[i] in Elements(keys[i..]) && keys[i..][1..] == keys[i + 1..];
      assert Elements(keys[i + 1..]) <= Elements(keys[i..]);
      var v := value.fields[keys[i]];
      var h := Combine(acc, HashText(keys[i]));
      HashIsFold(h, v);
      MembersAreFolded(HashValue(h, v), value, i + 1);
      assert lists[i] == [HashText(keys[i])] + Tokens(v);
      assert lists[i..][1..] == lists[i + 1..];
      FoldAppend(acc, lists[i], Flatten(lists[i + 1..]));
      FoldOnto(acc, HashText(keys[i]), Tokens(v));
    } else {
      NothingToFold(acc);
      assert keys[i..] == [] && lists[i..] == [];
    }
  }

  lemma NothingToFold(acc: Hash)
    ensures Fold(acc, []) == acc
  {}

  lemma FoldOnto(acc: Hash, token: Hash, rest: seq<Hash>)
    ensures Fold(acc, [token] + rest) == Fold(Combine(acc, token), rest)
  {
    assert ([token] + rest)[1..] == rest;
  }

  // The hash of a value is the fold of `31 * h + t` modulo 2^64 over its tokens.
  lemma {:induction false} HashIsFold(acc: Hash, value: Json)
    ensures HashValue(acc, value) == Fold(acc, Tokens(value))
    decreases value, 1, 0
  {
    hide HashText;
    match value {
      case Null => FoldOnto(acc, HashText("null"), []);
      case Bool(b) => TwoTokens(acc, HashText("bool"), HashText(if b then "true" else "false"));
      case Number(text) => TwoTokens(acc, HashText("number"), HashText(text));
      case String(s) => TwoTokens(acc, HashText("string"), HashText(s));
      case Array(items) =>
        TwoTokens(acc, HashText("array"), LengthWord(|items|));
        FoldAppend(acc, [HashText("array"), LengthWord(|items|)], Flatten(ItemTokens(value)));
        assert ItemTokens(value)[0..] == ItemTokens(value);
        ItemsAreFolded(Combine(Combine(acc, HashText("array")), LengthWord(|items|)), value, 0);
      case Object(fields) =>
        FoldOnto(acc, HashText("object"), Flatten(MemberTokens(value)));
        assert MemberTokens(value)[0..] == MemberTokens(value);
        assert SortedKeys(fields.Keys)[0..] == SortedKeys(fields.Keys);
        MembersAreFolded(Combine(acc, HashText("object")), value, 0);
    }
  }

  lemma TwoTokens(acc: Hash, t: Hash, u: Hash)
    ensures Fold(acc, [t, u]) == Combine(Combine(acc, t), u)
  {
    assert [t, u] == [t] + [u] && [u] == [u] + [];
    FoldOnto(acc, t, [u]);
    FoldOnto(Combine(acc, t), u, []);
  }

  /* ----- one scalar or key changed ----- */

  // At some depth one scalar of a kind is another, or one key, without changing its place among
  // the keys; `t` and `u` are the hashes of the two texts.
  ghost predicate Apart(a: Json, b: Json, t: Hash, u: Hash)
    decreases a
  {
    match a
    case Null => false
    case Bool(x) =>
      b.Bool? && t == HashText(if x then "true" else "false") && u == HashText(if b.b then "true" else "false")
    case Number(text) => b.Number? && t == HashText(text) && u == HashText(b.text)
    case String(text) => b.String? && t == HashText(text) && u == HashText(b.s)
    case Array(items) =>
      b.Array? && |b.items| == |items| && exists i :: 0 <= i < |items| && ApartAt(a, b, i, t, u)
    case Object(fields) =>
      && b.Object?
      && var keys := SortedKeys(fields.Keys);
         exists i :: 0 <= i < |keys| && (Renamed(fields, b.fields, i, t, u) || MemberApart(a, b, i, t, u))
  }

  ghost predicate ApartAt(a: Json, b: Json, i: nat, t: Hash, u: Hash)
    requires a.Array? && b.Array? && i < |a.items| == |b.items|
    decreases a, 0
  {
    Apart(a.items[i], b.items[i], t, u) && b.items == a.items[i := b.items[i]]
  }

  ghost predicate MemberApart(a: Json, b: Json, i: nat, t: Hash, u: Hash)
    requires a.Object? && b.Object? && i < |SortedKeys(a.fields.Keys)|
    decreases a, 0
  {
    var k := SortedKeys(a.fields.Keys)[i];
    assert k in Elements(SortedKeys(a.fields.Keys));
    k in b.fields && Apart(a.fields[k], b.fields[k], t, u) && b.fields == a.fields[k := b.fields[k]]
  }

  ghost predicate Renamed(m: Fields, n: Fields, i: nat, t: Hash, u: Hash)
    requires i < |SortedKeys(m.Keys)|
  {
    var keys := SortedKeys(m.Keys);
    assert keys[i] in Elements(keys);
    exists k :: SortedKeys(n.Keys) == keys[i := k] && n == (m - {keys[i]})[k := m[keys[i]]]
                && t == HashText(keys[i]) && u == HashText(k)
  }

  // Token lists that differ in one place.
  ghost predicate OneApart(a: seq<Hash>, b: seq<Hash>, before: seq<Hash>, t: Hash, u: Hash, after: seq<Hash>) {
    a == before + [t] + after && b == before + [u] + after
  }

  lemma ApartInside(lists: seq<seq<Hash>>, others: seq<seq<Hash>>, i: nat, before: seq<Hash>, t: Hash, u: Hash,
                    after: seq<Hash>)
    requires i < |lists| == |others| && others == lists[i := others[i]]
    requires OneApart(lists[i], others[i], before, t, u, after)
    ensures OneApart(Flatten(lists), Flatten(others), Flatten(lists[..i]) + before, t, u,
                     after + Flatten(lists[i + 1..]))
  {
    FlattenAt(lists, i);
    FlattenAt(others, i);
    assert lists[..i] == others[..i] && lists[i + 1..] == others[i + 1..];
    var x, y := Flatten(lists[..i]), Flatten(lists[i + 1..]);
    hide Flatten;
    ApartBehind(x, lists[i], others[i], before, t, u, after);
    ApartBefore(x + lists[i], x + others[i], y, x + before, t, u, after);
  }

  lemma ApartBehind(first: seq<Hash>, a: seq<Hash>, b: seq<Hash>, before: seq<Hash>, t: Hash, u: Hash, after: seq<Hash>)
    requires OneApart(a, b, before, t, u, after)
    ensures OneApart(first + a, first + b, first + before, t, u, after)
  {}

  lemma ApartBefore(a: seq<Hash>, b: seq<Hash>, last: seq<Hash>, before: seq<Hash>, t: Hash, u: Hash, after: seq<Hash>)
    requires OneApart(a, b, before, t, u, after)
    ensures OneApart(a + last, b + last, before, t, u, after + last)
  {}

  lemma {:induction false} TokensApart(a: Json, b: Json, t: Hash, u: Hash) returns (before: seq<Hash>, after: seq<Hash>)
    requires Apart(a, b, t, u)
    ensures OneApart(Tokens(a), Tokens(b), before, t, u, after)
    decreases a, 1
  {
    hide HashText;
    hide Flatten;
    match a {
      case Array(items) =>
        var i :| 0 <= i < |items| && ApartAt(a, b, i, t, u);
        before, after := TokensApart(items[i], b.items[i], t, u);
        hide Tokens;
        ApartInside(ItemTokens(a), ItemTokens(b), i, before, t, u, after);
        TokensOfArray(a);
        TokensOfArray(b);
        before, after := Flatten(ItemTokens(a)[..i]) + before, after + Flatten(ItemTokens(a)[i + 1..]);
        ApartBehind([HashText("array"), |items| % U64_LIMIT], Flatten(ItemTokens(a)), Flatten(ItemTokens(b)),
                    before, t, u, after);
        before := [HashText("array"), |items| % U64_LIMIT] + before;
      case Object(fields) =>
        before, after := ObjectTokensApart(a, b, t, u);
      case Null =>
        assert false;
      case _ =>
        var tag := if a.Bool? then "bool" else if a.Number? then "number" else "string";
        before, after := [HashText(tag)], [];
    }
  }

  lemma TokensOfArray(a: Json)
    requires a.Array?
    ensures Tokens(a) == [HashText("array"), |a.items| % U64_LIMIT] + Flatten(ItemTokens(a))
  {
    hide HashText;
  }

  lemma TokensOfObject(a: Json)
    requires a.Object?
    ensures Tokens(a) == [HashText("object")] + Flatten(MemberTokens(a))
  {
    hide HashText;
  }

  lemma {:induction false} ObjectTokensApart(a: Json, b: Json, t: Hash, u: Hash)
    returns (before: seq<Hash>, after: seq<Hash>)
    requires a.Object? && Apart(a, b, t, u)
    ensures OneApart(Tokens(a), Tokens(b), before, t, u, after)
    decreases a, 0
  {
    hide HashText;
    hide Flatten;
    hide Tokens;
    hide SortedKeys;
    var keys := SortedKeys(a.fields.Keys);
    var i :| 0 <= i < |keys| && (Renamed(a.fields, b.fields, i, t, u) || MemberApart(a, b, i, t, u));
    if MemberApart(a, b, i, t, u) {
      assert keys[i] in Elements(keys);
      assert b.fields.Keys == a.fields.Keys;
      before, after := TokensApart(a.fields[keys[i]], b.fields[keys[i]], t, u);
      ApartBehind([HashText(keys[i])], Tokens(a.fields[keys[i]]), Tokens(b.fields[keys[i]]), before, t, u, after);
      before := [HashText(keys[i])] + before;
    } else {
      before, after := RenamedApart(a, b, i, t, u);
    }
    OtherMembersStay(a, b, i, t, u);
    ApartInside(MemberTokens(a), MemberTokens(b), i, before, t, u, after);
    before, after := Flatten(MemberTokens(a)[..i]) + before, after + Flatten(MemberTokens(a)[i + 1..]);
    TokensOfObject(a);
    TokensOfObject(b);
    ApartBehind([HashText("object")], Flatten(MemberTokens(a)), Flatten(MemberTokens(b)), before, t, u, after);
    before := [HashText("object")] + before;
  }

  lemma RenamedApart(a: Json, b: Json, i: nat, t: Hash, u: Hash) returns (before: seq<Hash>, after: seq<Hash>)
    requires a.Object? && b.Object? && i < |SortedKeys(a.fields.Keys)| && Renamed(a.fields, b.fields, i, t, u)
    ensures i < |MemberTokens(a)| && i < |MemberTokens(b)|
    ensures OneApart(MemberTokens(a)[i], MemberTokens(b)[i], before, t, u, after)
  {
    hide HashText;
    hide Tokens;
    hide SortedKeys;
    var keys := SortedKeys(a.fields.Keys);
    assert keys[i] in Elements(keys);
    var k :| SortedKeys(b.fields.Keys) == keys[i := k] && b.fields == (a.fields - {keys[i]})[k := a.fields[keys[i]]]
             && t == HashText(keys[i]) && u == HashText(k);
    before, after := [], Tokens(a.fields[keys[i]]);
  }

  lemma OtherMembersStay(a: Json, b: Json, i: nat, t: Hash, u: Hash)
    requires a.Object? && b.Object? && i < |SortedKeys(a.fields.Keys)|
    requires Renamed(a.fields, b.fields, i, t, u) || MemberApart(a, b, i, t, u)
    ensures |MemberTokens(a)| == |MemberTokens(b)| && i < |MemberTokens(a)|
    ensures MemberTokens(b) == MemberTokens(a)[i := MemberTokens(b)[i]]
  {
    hide HashText;
    hide Tokens;
    hide SortedKeys;
    var keys, others := SortedKeys(a.fields.Keys), SortedKeys(b.fields.Keys);
    assert keys[i] in Elements(keys);
    if MemberApart(a, b, i, t, u) {
      assert b.fields.Keys == a.fields.Keys;
    }
    forall j | 0 <= j < |keys| && j != i
      ensures MemberTokens(a)[j] == MemberTokens(b)[j]
    {
      assert keys[j] in Elements(keys) && others[j] in Elements(others) && others[j] == keys[j];
      AscendingIsDistinct(keys, i, j);
      if !MemberApart(a, b, i, t, u) {
        AscendingIsDistinct(others, i, j);
      }
    }
  }

  lemma AscendingIsDistinct(keys: seq<string>, i: nat, j: nat)
    requires Ascending(keys) && i < |keys| && j < |keys| && i != j
    ensures keys[i] != keys[j]
  {
    hide KeyLess;
    if i < j {
      KeyLessIsStrict(keys[i], keys[j], keys[i]);
    } else {
      KeyLessIsStrict(keys[j], keys[i], keys[j]);
    }
  }

  // Two values that differ in one scalar or key hash alike exactly when its two texts do.
  lemma OneChangeCounts(acc: Hash, a: Json, b: Json, t: Hash, u: Hash)
    requires Apart(a, b, t, u)
    ensures HashValue(acc, a) == HashValue(acc, b) <==> t == u
  {
    hide HashValue;
    hide Apart;
    hide Tokens;
    var before, after := TokensApart(a, b, t, u);
    HashIsFold(acc, a);
    HashIsFold(acc, b);
    OneTokenApart(acc, before, t, u, after);
  }

  /* ----- the routing keys as folds ----- */

  // Each named member the body has, under its name.
  ghost function NamedTokens(body: Json, names: seq<string>): seq<seq<Hash>>
    decreases |names|
  {
    hide HashText;
    if names == [] then []
    else
      var rest := NamedTokens(body, names[1..]);
      match body.Get(names[0])
      case None => [[]] + rest
      case Some(value) => [[HashText(names[0])] + Tokens(value)] + rest
  }

  // The role and the text of a message that instructs.
  function MessageTokens(m: Json): seq<Hash> {
    hide HashText;
    match m.GetStr("role")
    case None => []
    case Some(role) =>
      if (role == "system" || role == "developer") && MessageText(m).Some?
      then [HashText(role), HashText(MessageText(m).value)]
      else []
  }

  function PreambleTokens(messages: seq<Json>): seq<seq<Hash>> {
    var preamble := Preamble(messages);
    seq(|preamble|, i requires 0 <= i < |preamble| => MessageTokens(preamble[i]))
  }

  const NAMED: seq<string> := ["tools", "functions", "response_format", "tool_choice", "parallel_tool_calls"]

  ghost function ScaffoldTokens(body: Json): seq<Hash> {
    Flatten(NamedTokens(body, NAMED) + PreambleTokens(Messages(body)))
  }

  // Hash so far, of the tokens so far.
  function Grown(s: Scaffold, tokens: seq<Hash>): Scaffold {
    Scaffold(Fold(s.hash, tokens), s.found || tokens != [])
  }

  lemma GrownTwice(s: Scaffold, a: seq<Hash>, b: seq<Hash>)
    ensures Grown(Grown(s, a), b) == Grown(s, a + b)
  {
    FoldAppend(s.hash, a, b);
    assert a == [] ==> a + b == b;
  }

  lemma {:induction false} FlattenAppend(a: seq<seq<Hash>>, b: seq<seq<Hash>>)
    ensures Flatten(a + b) == Flatten(a) + Flatten(b)
    decreases |a|
  {
    if a == [] {
      assert a + b == b;
    } else {
      assert (a + b)[1..] == a[1..] + b;
      FlattenAppend(a[1..], b);
    }
  }

  lemma {:induction false} MembersAreGrown(s: Scaffold, body: Json, names: seq<string>)
    ensures AddMembers(s, body, names) == Grown(s, Flatten(NamedTokens(body, names)))
    decreases |names|
  {
    hide HashText;
    hide HashValue;
    hide Tokens;
    hide Fold;
    if names == [] {
      NothingToFold(s.hash);
    } else {
      var head := NamedTokens(body, names)[0];
      assert NamedTokens(body, names) == [head] + NamedTokens(body, names[1..]);
      assert AddMember(s, body, names[0]) == Grown(s, head) by {
        match body.Get(names[0]) {
          case None => NothingToFold(s.hash);
          case Some(value) =>
            FoldOnto(s.hash, HashText(names[0]), Tokens(value));
            HashIsFold(Combine(s.hash, HashText(names[0])), value);
        }
      }
      MembersAreGrown(Grown(s, head), body, names[1..]);
      GrownTwice(s, head, Flatten(NamedTokens(body, names[1..])));
    }
  }

  lemma {:induction false} MessagesAreGrown(s: Scaffold, messages: seq<Json>)
    ensures AddMessages(s, messages) == Grown(s, Flatten(PreambleTokens(messages)))
    decreases |messages|
  {
    hide HashText;
    hide MessageText;
    hide Fold;
    if messages == [] || RoleOf(messages[0]) == "user" {
      NothingToFold(s.hash);
      assert PreambleTokens(messages) == [];
    } else {
      var head := MessageTokens(messages[0]);
      assert PreambleTokens(messages) == [head] + PreambleTokens(messages[1..]);
      if head != [] {
        TwoTokens(s.hash, head[0], head[1]);
      } else {
        NothingToFold(s.hash);
      }
      MessagesAreGrown(Grown(s, head), messages[1..]);
      GrownTwice(s, head, Flatten(PreambleTokens(messages[1..])));
    }
  }

  // The prefix key folds the named members and the instructing messages before the first of the
  // user, in this order; there is none exactly when there is nothing to fold.
  lemma ScaffoldIsFold(body: Json)
    ensures ScaffoldHash(body) == if ScaffoldTokens(body) == [] then None else Some(Fold(0, ScaffoldTokens(body)))
  {
    hide HashText;
    hide Tokens;
    hide AddMembers;
    hide AddMessages;
    hide NamedTokens;
    hide PreambleTokens;
    hide Messages;
    MembersAreGrown(Scaffold(0, false), body, NAMED);
    var named, preamble := NamedTokens(body, NAMED), PreambleTokens(Messages(body));
    MessagesAreGrown(Grown(Scaffold(0, false), Flatten(named)), Messages(body));
    GrownTwice(Scaffold(0, false), Flatten(named), Flatten(preamble));
    FlattenAppend(named, preamble);
  }

  lemma ScaffoldsApart(a: Json, b: Json, before: seq<Hash>, t: Hash, u: Hash, after: seq<Hash>)
    requires OneApart(ScaffoldTokens(a), ScaffoldTokens(b), before, t, u, after)
    ensures ScaffoldHash(a) == ScaffoldHash(b) <==> t == u
  {
    hide ScaffoldTokens;
    ScaffoldIsFold(a);
    ScaffoldIsFold(b);
    OneTokenApart(0, before, t, u, after);
  }

  lemma {:induction false} NamedAlike(a: Json, b: Json, names: seq<string>, except: nat)
    requires forall i :: 0 <= i < |names| && i != except ==> a.Get(names[i]) == b.Get(names[i])
    ensures |NamedTokens(a, names)| == |NamedTokens(b, names)| == |names|
    ensures forall i :: 0 <= i < |names| ==>
              NamedTokens(a, names)[i] == (if a.Get(names[i]).None? then []
                                           else [HashText(names[i])] + Tokens(a.Get(names[i]).value))
    ensures forall i :: 0 <= i < |names| && i != except ==> NamedTokens(b, names)[i] == NamedTokens(a, names)[i]
    decreases |names|
  {
    hide HashText;
    hide Tokens;
    if names != [] {
      NamedAlike(a, b, names[1..], if except == 0 then |names| else except - 1);
      assert NamedTokens(a, names)[1..] == NamedTokens(a, names[1..]);
      assert NamedTokens(b, names)[1..] == NamedTokens(b, names[1..]);
    }
  }

  // Two requests alike but for one scalar or key of one of the named members.
  lemma MemberCounts(a: Json, b: Json, i: nat, t: Hash, u: Hash)
    requires i < |NAMED| && a.Get(NAMED[i]).Some? && b.Get(NAMED[i]).Some?
    requires Apart(a.Get(NAMED[i]).value, b.Get(NAMED[i]).value, t, u)
    requires forall j :: 0 <= j < |NAMED| && j != i ==> a.Get(NAMED[j]) == b.Get(NAMED[j])
    requires Preamble(Messages(a)) == Preamble(Messages(b))
    ensures ScaffoldHash(a) == ScaffoldHash(b) <==> t == u
  {
    hide HashText;
    hide Tokens;
    hide Apart;
    hide NamedTokens;
    hide Preamble;
    hide Messages;
    hide MessageTokens;
    hide ScaffoldHash;
    hide NAMED;
    var x, y := NamedTokens(a, NAMED), NamedTokens(b, NAMED);
    var before, after := NamedApart(a, b, i, t, u);
    var rest := PreambleTokens(Messages(a));
    assert rest == PreambleTokens(Messages(b));
    hide Flatten;
    hide OneApart;
    hide PreambleTokens;
    assert (x + rest)[i] == x[i] && (y + rest)[i] == y[i];
    assert y + rest == (x + rest)[i := (y + rest)[i]];
    ApartInside(x + rest, y + rest, i, before, t, u, after);
    ScaffoldsApart(a, b, Flatten((x + rest)[..i]) + before, t, u, after + Flatten((x + rest)[i + 1..]));
  }

  lemma NamedApart(a: Json, b: Json, i: nat, t: Hash, u: Hash) returns (before: seq<Hash>, after: seq<Hash>)
    requires i < |NAMED| && a.Get(NAMED[i]).Some? && b.Get(NAMED[i]).Some?
    requires Apart(a.Get(NAMED[i]).value, b.Get(NAMED[i]).value, t, u)
    requires forall j :: 0 <= j < |NAMED| && j != i ==> a.Get(NAMED[j]) == b.Get(NAMED[j])
    ensures var x, y := NamedTokens(a, NAMED), NamedTokens(b, NAMED);
            |x| == |y| == |NAMED| && y == x[i := y[i]] && OneApart(x[i], y[i], before, t, u, after)
  {
    hide HashText;
    hide Tokens;
    hide Apart;
    hide NamedTokens;
    NamedAlike(a, b, NAMED, i);
    NamedAlike(b, a, NAMED, i);
    hide NAMED;
    var v, w := a.Get(NAMED[i]).value, b.Get(NAMED[i]).value;
    before, after := TokensApart(v, w, t, u);
    ApartBehind([HashText(NAMED[i])], Tokens(v), Tokens(w), before, t, u, after);
    before := [HashText(NAMED[i])] + before;
  }

  // Two requests alike but for the text of one instructing message.
  lemma SystemTextCounts(a: Json, b: Json, i: nat, role: string, text: string, other: string)
    requires forall j :: 0 <= j < |NAMED| ==> a.Get(NAMED[j]) == b.Get(NAMED[j])
    requires i < |Preamble(Messages(a))| == |Preamble(Messages(b))|
    requires Preamble(Messages(b)) == Preamble(Messages(a))[i := Preamble(Messages(b))[i]]
    requires role == "system" || role == "developer"
    requires Preamble(Messages(a))[i].GetStr("role") == Preamble(Messages(b))[i].GetStr("role") == Some(role)
    requires MessageText(Preamble(Messages(a))[i]) == Some(text) && MessageText(Preamble(Messages(b))[i]) == Some(other)
    ensures ScaffoldHash(a) == ScaffoldHash(b) <==> HashText(text) == HashText(other)
  {
    hide HashText;
    hide Tokens;
    hide MessageText;
    hide Preamble;
    hide Messages;
    hide NamedTokens;
    hide ScaffoldHash;
    hide Flatten;
    NamedAlike(a, b, NAMED, |NAMED|);
    assert NamedTokens(a, NAMED) == NamedTokens(b, NAMED);
    hide NAMED;
    var named := NamedTokens(a, NAMED);
    var x, y := PreambleTokens(Messages(a)), PreambleTokens(Messages(b));
    assert y == x[i := y[i]];
    assert OneApart(x[i], y[i], [HashText(role)], HashText(text), HashText(other), []);
    var n := |named| + i;
    assert (named + x)[n] == x[i] && (named + y)[n] == y[i] && named + y == (named + x)[n := (named + y)[n]];
    ApartInside(named + x, named + y, n, [HashText(role)], HashText(text), HashText(other), []);
    ScaffoldsApart(a, b, Flatten((named + x)[..n]) + [HashText(role)], HashText(text), HashText(other),
                   [] + Flatten((named + x)[n + 1..]));
  }

  // The text of a message is its content, or the texts of its blocks, a line each.
  lemma TextOfBlocks(a: seq<Json>, b: seq<Json>, block: Json)
    ensures BlockTexts(a + b) == BlockTexts(a) + BlockTexts(b)
    ensures BlockTexts([block]) == if block.GetStr("text").Some? then block.GetStr("text").value + "\n" else ""
    decreases |a|
  {
    assert [block][1..] == [] && BlockTexts([]) == "";
    if a == [] {
      assert a + b == b;
    } else {
      assert (a + b)[1..] == a[1..] + b;
      TextOfBlocks(a[1..], b, block);
    }
  }

  lemma TextOfMessage(role: Json, content: Json)
    ensures MessageText(Object(map["role" := role, "content" := content]))
         == match content
            case String(text) => Some(text)
            case Array(blocks) => if BlockTexts(blocks) == "" then None else Some(BlockTexts(blocks))
            case _ => None
  {
    assert "content" != "role" by { assert |"content"| == 7 && |"role"| == 4; }
  }

  // The user's key: the text of the first user message, under its role; without such a message,
  // of the prompt.
  lemma {:induction false} FirstUserCounts(before: seq<Json>, m: Json, after: seq<Json>)
    requires m.GetStr("role") == Some("user")
    requires forall i :: 0 <= i < |before| ==> before[i].GetStr("role") != Some("user")
    ensures FirstUserHash(before) == None
    ensures FirstUserHash(before + [m] + after)
         == Some(if MessageText(m).None? then None
                 else Some(Fold(0, [HashText("user"), HashText(MessageText(m).value)])))
    decreases |before|
  {
    hide HashText;
    hide MessageText;
    hide Fold;
    var all := before + [m] + after;
    if before == [] {
      assert all[0] == m;
      if MessageText(m).Some? {
        TwoTokens(0, HashText("user"), HashText(MessageText(m).value));
      }
    } else {
      assert all[1..] == before[1..] + [m] + after && all[0] == before[0];
      FirstUserCounts(before[1..], m, after);
    }
  }

  lemma PromptCounts(prompt: string)
    ensures FirstUserHashFromBody(Object(map["prompt" := String(prompt)]))
         == Some(Fold(0, [HashText("prompt"), HashText(prompt)]))
  {
    hide HashText;
    hide Fold;
    assert "messages" != "prompt" by { assert |"messages"| == 8 && |"prompt"| == 6; }
    TwoTokens(0, HashText("prompt"), HashText(prompt));
  }

  // The sticky key is the session's; without a session it folds the prefix and the user's key,
  // as far as there are such.
  lemma StickyIsFold(body: Json)
    ensures var keys := KeysOf(Some(body));
            var user := FirstUserHashFromBody(body);
            var parts := (if keys.prefix.Some? then [keys.prefix.value] else [])
                         + (if user.Some? then [user.value] else []);
            && keys.session == (if body.GetStr("user").Some? then Some(HashText(body.GetStr("user").value))
                                else if body.GetStr("session_id").Some?
                                then Some(HashText(body.GetStr("session_id").value)) else None)
            && keys.prefix == ScaffoldHash(body)
            && keys.sticky == (if keys.session.Some? then keys.session
                               else if parts == [] then None else Some(Fold(0, parts)))
  {
    hide HashText;
    hide FirstUserHashFromBody;
    hide ScaffoldHash;
    hide Fold;
    var keys, user := KeysOf(Some(body)), FirstUserHashFromBody(body);
    NothingToFold(0);
    if user.Some? {
      FoldOnto(0, user.value, []);
      NothingToFold(Combine(0, user.value));
      assert [user.value] == [user.value] + [] && [] + [user.value] == [user.value];
    }
    if keys.prefix.Some? {
      FoldOnto(0, keys.prefix.value, []);
      NothingToFold(Combine(0, keys.prefix.value));
      assert [keys.prefix.value] == [keys.prefix.value] + [];
      if user.Some? {
        TwoTokens(0, keys.prefix.value, user.value);
        assert [keys.prefix.value] + [user.value] == [keys.prefix.value, user.value];
      }
    }
  }
}
