/** The order of strings, by their UTF-8 bytes, and sorted listings of sets of them. */
module TextOrder {
  import opened Wire
  import Utf8

  predicate BytesLess(a: Bytes, b: Bytes)
    decreases |a|
  {
    b != [] && (a == [] || a[0] < b[0] || (a[0] == b[0] && BytesLess(a[1..], b[1..])))
  }

  predicate KeyLess(a: string, b: string) {
    BytesLess(Utf8.Encode(a), Utf8.Encode(b))
  }

  lemma {:induction false} BytesLessIsTotal(a: Bytes, b: Bytes)
    ensures a == b || BytesLess(a, b) || BytesLess(b, a)
    decreases |a|
  {
    if a != [] && b != [] && a[0] == b[0] {
      BytesLessIsTotal(a[1..], b[1..]);
      if a[1..] == b[1..] {
        assert a == [a[0]] + a[1..] && b == [b[0]] + b[1..];
      }
    }
  }

  lemma {:induction false} BytesLessIsStrict(a: Bytes, b: Bytes, c: Bytes)
    requires BytesLess(a, b)
    ensures !BytesLess(b, a)
    ensures BytesLess(b, c) ==> BytesLess(a, c)
    ensures a != b
    decreases |a|
  {
    if a != [] && a[0] == b[0] {
      BytesLessIsStrict(a[1..], b[1..], if c == [] then [] else c[1..]);
    }
  }

  lemma KeyLessIsTotal(a: string, b: string)
    ensures a == b || KeyLess(a, b) || KeyLess(b, a)
  {
    BytesLessIsTotal(Utf8.Encode(a), Utf8.Encode(b));
    Utf8.RoundTrip(a);
    Utf8.RoundTrip(b);
  }

  lemma KeyLessIsStrict(a: string, b: string, c: string)
    requires KeyLess(a, b)
    ensures !KeyLess(b, a) && a != b
    ensures KeyLess(b, c) ==> KeyLess(a, c)
  {
    BytesLessIsStrict(Utf8.Encode(a), Utf8.Encode(b), Utf8.Encode(c));
  }

  // What the order is: a proper prefix comes first, and otherwise the first byte that differs
  // decides.
  lemma {:induction false} OrderIs(a: Bytes, b: Bytes, n: nat)
    requires n <= |a| && n <= |b| && a[..n] == b[..n]
    ensures n == |a| < |b| ==> BytesLess(a, b)
    ensures n < |a| && n < |b| && a[n] < b[n] ==> BytesLess(a, b)
    decreases n
  {
    if n > 0 {
      assert a[0] == a[..n][0] && b[0] == b[..n][0];
      assert a[1..][..n - 1] == a[..n][1..] && b[1..][..n - 1] == b[..n][1..];
      OrderIs(a[1..], b[1..], n - 1);
    }
  }

  /* ----- sorted listings of a set of keys ----- */

  function Elements(keys: seq<string>): set<string> {
    set k | k in keys
  }

  predicate Ascending(keys: seq<string>) {
    forall i, j :: 0 <= i < j < |keys| ==> KeyLess(keys[i], keys[j])
  }

  // Ordered insertion; a key that is already there is not added again.
  function Insert(key: string, keys: seq<string>): (r: seq<string>) {
    if keys == [] then [key]
    else if key == keys[0] then keys
    else if KeyLess(key, keys[0]) then [key] + keys
    else [keys[0]] + Insert(key, keys[1..])
  }

  // Sorting and dropping duplicates (`sort` and `dedup`).
  function Sort(keys: seq<string>): seq<string> {
    if keys == [] then [] else Insert(keys[0], Sort(keys[1..]))
  }

  lemma {:induction false} InsertKeeps(key: string, keys: seq<string>)
    requires Ascending(keys)
    ensures Ascending(Insert(key, keys))
    ensures Elements(Insert(key, keys)) == Elements(keys) + {key}
    decreases |keys|
  {
    hide KeyLess;
    if keys != [] && key != keys[0] {
      AscendingParts(keys);
      hide Ascending;
      if KeyLess(key, keys[0]) {
        forall k | k in keys ensures KeyLess(key, k) {
          if k != keys[0] {
            assert k in keys[1..];
            KeyLessIsStrict(key, keys[0], k);
          }
        }
        AscendingCons(key, keys);
      } else {
        KeyLessIsTotal(key, keys[0]);
        InsertKeeps(key, keys[1..]);
        var r := Insert(key, keys[1..]);
        forall k | k in r ensures KeyLess(keys[0], k) {
          assert k in Elements(r);
        }
        AscendingCons(keys[0], r);
      }
    }
  }

  lemma AscendingParts(keys: seq<string>)
    requires Ascending(keys) && keys != []
    ensures Ascending(keys[1..]) && forall k :: k in keys[1..] ==> KeyLess(keys[0], k)
    ensures Elements(keys) == {keys[0]} + Elements(keys[1..])
  {
    hide KeyLess;
    assert keys == [keys[0]] + keys[1..];
  }

  lemma AscendingCons(key: string, keys: seq<string>)
    requires Ascending(keys) && forall k :: k in keys ==> KeyLess(key, k)
    ensures Ascending([key] + keys) && Elements([key] + keys) == {key} + Elements(keys)
  {
    hide KeyLess;
  }

  lemma {:induction false} SortSorts(keys: seq<string>)
    ensures Ascending(Sort(keys)) && Elements(Sort(keys)) == Elements(keys)
    decreases |keys|
  {
    if keys != [] {
      SortSorts(keys[1..]);
      InsertKeeps(keys[0], Sort(keys[1..]));
      assert keys == [keys[0]] + keys[1..];
    }
  }

  // A set has one ascending listing.
  lemma {:induction false} AscendingIsUnique(a: seq<string>, b: seq<string>)
    requires Ascending(a) && Ascending(b) && Elements(a) == Elements(b)
    ensures a == b
    decreases |a|
  {
    hide KeyLess;
    if a == [] || b == [] {
      NoElements(a);
      NoElements(b);
    } else {
      assert a[0] in Elements(b) && b[0] in Elements(a);
      SameFirst(a, b);
      TailElements(a);
      TailElements(b);
      AscendingIsUnique(a[1..], b[1..]);
      assert a == [a[0]] + a[1..] && b == [b[0]] + b[1..];
    }
  }

  lemma NoElements(a: seq<string>)
    ensures a == [] <==> Elements(a) == {}
  {
    if a != [] {
      assert a[0] in Elements(a);
    }
  }

  lemma TailElements(a: seq<string>)
    requires Ascending(a) && a != []
    ensures Ascending(a[1..]) && Elements(a[1..]) == Elements(a) - {a[0]}
  {
    hide KeyLess;
    forall i | 1 <= i < |a| ensures a[i] != a[0] {
      KeyLessIsStrict(a[0], a[i], a[0]);
    }
    assert a == [a[0]] + a[1..];
  }

  lemma SameFirst(a: seq<string>, b: seq<string>)
    requires Ascending(a) && Ascending(b) && a != [] && b != []
    requires a[0] in Elements(b) && b[0] in Elements(a)
    ensures a[0] == b[0]
  {
    hide KeyLess;
    var i :| 0 <= i < |b| && b[i] == a[0];
    var j :| 0 <= j < |a| && a[j] == b[0];
    if i > 0 && j > 0 {
      KeyLessIsStrict(b[0], b[i], b[0]);
      assert false;
    }
  }

  // The ascending listing of a set.
  ghost function SortedKeys(keys: set<string>): (r: seq<string>)
    ensures Ascending(r) && Elements(r) == keys
    decreases |keys|
  {
    if keys == {} then []
    else
      var k :| k in keys;
      InsertKeeps(k, SortedKeys(keys - {k}));
      Insert(k, SortedKeys(keys - {k}))
  }
}
