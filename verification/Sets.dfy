/** Sizes of sets and counts of sequence elements. */
module Sets {
  lemma {:induction false} SubsetIsNoLarger<T>(a: set<T>, b: set<T>)
    requires a <= b
    ensures |a| <= |b|
    decreases |a|
  {
    if a != {} {
      var x :| x in a;
      SubsetIsNoLarger(a - {x}, b - {x});
    }
  }

  // One position left out.
  lemma CountWithout<T>(s: seq<T>, i: nat)
    requires i < |s|
    ensures multiset(s[..i] + s[i + 1..]) == multiset(s) - multiset{s[i]}
  {
    assert s == s[..i] + [s[i]] + s[i + 1..];
  }

  lemma CountTail<T>(s: seq<T>)
    requires s != []
    ensures multiset(s[1..]) == multiset(s) - multiset{s[0]}
  {
    assert s == [s[0]] + s[1..];
  }

  lemma SameCountsSameLength<T>(a: seq<T>, b: seq<T>)
    requires multiset(a) == multiset(b)
    ensures |a| == |b|
  {
    assert |multiset(a)| == |multiset(b)|;
  }

  // The first element, taken out of both lists.
  lemma TakenFromBoth<T>(a: seq<T>, b: seq<T>) returns (j: nat)
    requires multiset(a) == multiset(b) && a != []
    ensures j < |b| && b[j] == a[0] && multiset(a[1..]) == multiset(b[..j] + b[j + 1..])
  {
    assert a[0] in multiset(b);
    j :| 0 <= j < |b| && b[j] == a[0];
    CountTail(a);
    CountWithout(b, j);
  }

  lemma OneTakenOut<T>(s: seq<T>, i: nat) returns (rest: seq<T>)
    requires i < |s|
    ensures rest == s[..i] + s[i + 1..] && multiset(rest + [s[i]]) == multiset(s)
    ensures forall x :: x in rest ==> x in s
  {
    rest := s[..i] + s[i + 1..];
    assert s == s[..i] + [s[i]] + s[i + 1..];
  }

  lemma TwoTakenOut<T>(s: seq<T>, i: nat, j: nat) returns (rest: seq<T>)
    requires i < j < |s|
    ensures multiset(rest + [s[i], s[j]]) == multiset(s) && multiset(rest + [s[j], s[i]]) == multiset(s)
    ensures forall x :: x in rest ==> x in s
  {
    var most := OneTakenOut(s, j);
    assert most[i] == s[i];
    rest := OneTakenOut(most, i);
    assert rest + [s[i], s[j]] == rest + [s[i]] + [s[j]];
  }
}
