/** A stable sort by a numeric key: the standard library's `sort` and `sort_by_key`. */
module Sorting {
  function InsertBy<T>(x: T, s: seq<T>, key: T -> nat): (r: seq<T>)
    ensures |r| == |s| + 1
  {
    if s == [] || key(x) <= key(s[0]) then [x] + s else [s[0]] + InsertBy(x, s[1..], key)
  }

  function SortBy<T>(s: seq<T>, key: T -> nat): (r: seq<T>)
    ensures |r| == |s|
  {
    if s == [] then [] else InsertBy(s[0], SortBy(s[1..], key), key)
  }

  predicate RisingBy<T>(s: seq<T>, key: T -> nat) {
    forall i, j :: 0 <= i < j < |s| ==> key(s[i]) <= key(s[j])
  }

  lemma {:induction false} InsertKeeps<T>(x: T, s: seq<T>, key: T -> nat)
    requires RisingBy(s, key)
    ensures RisingBy(InsertBy(x, s, key), key) && multiset(InsertBy(x, s, key)) == multiset(s) + multiset{x}
    decreases |s|
  {
    hide RisingBy;
    if s != [] && key(x) > key(s[0]) {
      RisingParts(s, key);
      InsertKeeps(x, s[1..], key);
      var t := InsertBy(x, s[1..], key);
      assert s == [s[0]] + s[1..];
      forall e | e in t
        ensures key(s[0]) <= key(e)
      {
        InsertElement(x, s[1..], t, e);
      }
      RisingCons(s[0], t, key);
    } else {
      if s != [] {
        RisingParts(s, key);
        assert s == [s[0]] + s[1..];
      }
      RisingCons(x, s, key);
    }
  }

  lemma RisingParts<T>(s: seq<T>, key: T -> nat)
    requires RisingBy(s, key) && s != []
    ensures RisingBy(s[1..], key) && forall e :: e in s[1..] ==> key(s[0]) <= key(e)
  {}

  lemma RisingCons<T>(x: T, s: seq<T>, key: T -> nat)
    requires RisingBy(s, key) && forall e :: e in s ==> key(x) <= key(e)
    ensures RisingBy([x] + s, key)
  {}

  lemma InsertElement<T>(x: T, s: seq<T>, t: seq<T>, e: T)
    requires multiset(t) == multiset(s) + multiset{x} && e in t
    ensures e == x || e in s
  {
    assert e in multiset(t);
  }

  lemma {:induction false} SortSorts<T>(s: seq<T>, key: T -> nat)
    ensures RisingBy(SortBy(s, key), key) && multiset(SortBy(s, key)) == multiset(s)
    decreases |s|
  {
    hide InsertBy;
    hide RisingBy;
    if s == [] {
      NothingRises(s, key);
    } else {
      SortSorts(s[1..], key);
      InsertKeeps(s[0], SortBy(s[1..], key), key);
      assert s == [s[0]] + s[1..];
    }
  }

  lemma NothingRises<T>(s: seq<T>, key: T -> nat)
    requires s == []
    ensures RisingBy(s, key)
  {}
}
