/** The order Python uses on str (lexicographic by code point) and the two
    sorted containers the scripts rely on: a SortedSet is a strictly
    increasing sequence, a SortedList a non-decreasing one. */
module Sorted {

  /** Python's a < b on two strings. */
  predicate Below(a: string, b: string)
  {
    if a == [] then b != []
    else if b == [] then false
    else if a[0] == b[0] then Below(a[1..], b[1..])
    else a[0] < b[0]
  }

  lemma {:induction false} BelowIrreflexive(a: string)
    ensures !Below(a, a)
  {
    if a != [] { BelowIrreflexive(a[1..]); }
  }

  lemma {:induction false} BelowTransitive(a: string, b: string, c: string)
    requires Below(a, b) && Below(b, c)
    ensures Below(a, c)
  {
    if a != [] && a[0] == b[0] && b[0] == c[0] {
      BelowTransitive(a[1..], b[1..], c[1..]);
    }
  }

  lemma {:induction false} BelowTotal(a: string, b: string)
    requires a != b
    ensures Below(a, b) || Below(b, a)
  {
    if a != [] && b != [] && a[0] == b[0] {
      assert a == [a[0]] + a[1..] && b == [b[0]] + b[1..];
      BelowTotal(a[1..], b[1..]);
    }
  }

  lemma BelowAsymmetric(a: string, b: string)
    requires Below(a, b)
    ensures !Below(b, a)
  {
    if Below(b, a) {
      BelowTransitive(a, b, a);
      BelowIrreflexive(a);
    }
  }

  ghost predicate StrictlySorted(s: seq<string>) {
    forall i, j :: 0 <= i < j < |s| ==> Below(s[i], s[j])
  }

  ghost predicate NonDecreasing(s: seq<string>) {
    forall i, j :: 0 <= i < j < |s| ==> !Below(s[j], s[i])
  }

  predicate Distinct<T(==)>(s: seq<T>) {
    forall i, j :: 0 <= i < j < |s| ==> s[i] != s[j]
  }

  ghost function Elems<T>(s: seq<T>): set<T> {
    set x | x in s
  }

  lemma PrependStrictlySorted(h: string, t: seq<string>)
    requires StrictlySorted(t)
    requires forall y :: y in t ==> Below(h, y)
    ensures StrictlySorted([h] + t)
  {
    var s := [h] + t;
    forall i, j | 0 <= i < j < |s| ensures Below(s[i], s[j]) {
      if i == 0 { assert s[j] == t[j - 1]; } else { assert s[i] == t[i - 1] && s[j] == t[j - 1]; }
    }
  }

  /** SortedSet.add: the element lands at its place in the order and is
      not stored twice. */
  function Insert(s: seq<string>, x: string): (r: seq<string>)
    requires StrictlySorted(s)
    ensures StrictlySorted(r)
    ensures forall y :: y in r <==> y in s || y == x
  {
    if s == [] then [x]
    else if x == s[0] then s
    else if Below(x, s[0]) then
      InsertFront(s, x);
      [x] + s
    else
      var t := Insert(s[1..], x);
      InsertBehind(s, x, t);
      [s[0]] + t
  }

  lemma InsertFront(s: seq<string>, x: string)
    requires StrictlySorted(s) && s != [] && Below(x, s[0])
    ensures StrictlySorted([x] + s)
  {
    forall y | y in s ensures Below(x, y) {
      if y != s[0] { BelowTransitive(x, s[0], y); }
    }
    PrependStrictlySorted(x, s);
  }

  lemma InsertBehind(s: seq<string>, x: string, t: seq<string>)
    requires StrictlySorted(s) && s != [] && x != s[0] && !Below(x, s[0])
    requires StrictlySorted(t) && forall y :: y in t <==> y in s[1..] || y == x
    ensures StrictlySorted([s[0]] + t)
  {
    BelowTotal(x, s[0]);
    PrependStrictlySorted(s[0], t);
  }

  /** The SortedSet holding exactly the strings of s. */
  ghost function SortedSetOf(s: set<string>): (r: seq<string>)
    ensures StrictlySorted(r)
    ensures forall y :: y in r <==> y in s
    decreases s
  {
    if s == {} then []
    else
      var x :| x in s;
      Insert(SortedSetOf(s - {x}), x)
  }

  /** Two strictly sorted sequences holding the same strings are equal: a
      SortedSet's contents determine its sequence. */
  lemma {:induction false} StrictlySortedUnique(a: seq<string>, b: seq<string>)
    requires StrictlySorted(a) && StrictlySorted(b)
    requires forall y :: y in a <==> y in b
    ensures a == b
  {
    assert b != [] ==> b[0] in a;
    if a != [] {
      assert a[0] in b && b != [];
      if a[0] != b[0] {
        assert b[0] in a;
        var i :| 0 <= i < |a| && a[i] == b[0];
        var j :| 0 <= j < |b| && b[j] == a[0];
        assert Below(a[0], b[0]) && Below(b[0], a[0]);
        BelowAsymmetric(a[0], b[0]);
      }
      assert a == [a[0]] + a[1..] && b == [b[0]] + b[1..];
      forall y ensures y in a[1..] <==> y in b[1..] {
        if y in a[1..] {
          var i :| 1 <= i < |a| && a[i] == y;
          assert Below(a[0], y);
          BelowIrreflexive(y);
          assert y in b && y != b[0];
        }
        if y in b[1..] {
          var j :| 1 <= j < |b| && b[j] == y;
          assert Below(b[0], y);
          BelowIrreflexive(y);
          assert y in a && y != a[0];
        }
      }
      StrictlySortedUnique(a[1..], b[1..]);
    }
  }

  lemma StrictlySortedIsDistinct(s: seq<string>)
    requires StrictlySorted(s)
    ensures Distinct(s)
  {
    forall i, j | 0 <= i < j < |s| ensures s[i] != s[j] {
      BelowIrreflexive(s[i]);
    }
  }

  /** SortedList.add: places x before the first element that is not below
      it; duplicates are kept. */
  function InsertKeep(s: seq<string>, x: string): (r: seq<string>)
    requires NonDecreasing(s)
    ensures NonDecreasing(r)
    ensures multiset(r) == multiset(s) + multiset{x}
  {
    if s == [] then [x]
    else if !Below(s[0], x) then
      KeepFront(s, x);
      [x] + s
    else
      var t := InsertKeep(s[1..], x);
      assert s == [s[0]] + s[1..];
      KeepBehind(s, x, t);
      [s[0]] + t
  }

  lemma KeepFront(s: seq<string>, x: string)
    requires NonDecreasing(s) && s != [] && !Below(s[0], x)
    ensures NonDecreasing([x] + s)
  {
    var r := [x] + s;
    forall i, j | 0 <= i < j < |r| ensures !Below(r[j], r[i]) {
      if i == 0 {
        var y := s[j - 1];
        if Below(y, x) {
          if y == s[0] {
          } else {
            BelowTotal(y, s[0]);
            BelowTransitive(s[0], y, x);
          }
        }
      } else {
        assert r[i] == s[i - 1] && r[j] == s[j - 1];
      }
    }
  }

  lemma KeepBehind(s: seq<string>, x: string, t: seq<string>)
    requires NonDecreasing(s) && s != [] && Below(s[0], x)
    requires NonDecreasing(t) && multiset(t) == multiset(s[1..]) + multiset{x}
    ensures NonDecreasing([s[0]] + t)
  {
    var r := [s[0]] + t;
    forall i, j | 0 <= i < j < |r| ensures !Below(r[j], r[i]) {
      if i == 0 {
        var y := t[j - 1];
        assert y in multiset(t);
        if y == x {
          BelowAsymmetric(s[0], x);
        } else {
          assert y in s[1..];
          var k :| 1 <= k < |s| && s[k] == y;
        }
      } else {
        assert r[i] == t[i - 1] && r[j] == t[j - 1];
      }
    }
  }

  /** SortedList(s): the elements of s in non-decreasing order, as many
      times as s holds them. */
  function SortList(s: seq<string>): (r: seq<string>)
    ensures NonDecreasing(r)
    ensures multiset(r) == multiset(s)
  {
    if s == [] then []
    else
      assert s == s[..|s| - 1] + [s[|s| - 1]];
      InsertKeep(SortList(s[..|s| - 1]), s[|s| - 1])
  }

  lemma {:induction false} DistinctMultiplicity(s: seq<string>)
    requires Distinct(s)
    ensures forall x :: multiset(s)[x] <= 1
  {
    if s != [] {
      var p := s[..|s| - 1];
      assert s == p + [s[|s| - 1]];
      assert Distinct(p);
      DistinctMultiplicity(p);
      assert s[|s| - 1] !in p;
    }
  }

  lemma MultiplicityDistinct(s: seq<string>)
    requires forall x :: multiset(s)[x] <= 1
    ensures Distinct(s)
  {
    forall i, j | 0 <= i < j < |s| ensures s[i] != s[j] {
      RepeatedTwice(s, i, j);
    }
  }

  lemma RepeatedTwice(s: seq<string>, i: nat, j: nat)
    requires i < j < |s|
    ensures s[i] == s[j] ==> multiset(s)[s[i]] >= 2
  {
    assert s == s[..j] + s[j..];
    assert s[i] in s[..j];
    assert s[j] in s[j..];
  }

  /** Sorting a list without repeated entries yields a SortedSet holding
      exactly its entries. */
  lemma SortListOfDistinct(s: seq<string>)
    requires Distinct(s)
    ensures StrictlySorted(SortList(s))
    ensures forall y :: y in SortList(s) <==> y in s
  {
    var r := SortList(s);
    DistinctMultiplicity(s);
    MultiplicityDistinct(r);
    forall i, j | 0 <= i < j < |r| ensures Below(r[i], r[j]) {
      BelowTotal(r[i], r[j]);
    }
    forall y ensures y in r <==> y in s {
      assert y in r <==> y in multiset(r);
    }
  }
}
