/** Sorting strings by code point, as Python's `sorted` does. */
module Sorting {

  predicate Le(a: string, b: string) {
    a == [] || (b != [] && (a[0] < b[0] || (a[0] == b[0] && Le(a[1..], b[1..]))))
  }

  lemma {:induction false} LeTotal(a: string, b: string)
    ensures Le(a, b) || Le(b, a)
    ensures Le(a, b) && Le(b, a) ==> a == b
  {
    if a != [] && b != [] && a[0] == b[0] {
      LeTotal(a[1..], b[1..]);
      assert a == [a[0]] + a[1..] && b == [b[0]] + b[1..];
    }
  }

  lemma {:induction false} LeTransitive(a: string, b: string, c: string)
    requires Le(a, b) && Le(b, c)
    ensures Le(a, c)
  {
    if a != [] && b != [] && c != [] && a[0] == b[0] == c[0] {
      LeTransitive(a[1..], b[1..], c[1..]);
    }
  }

  /** The texts agree before `k`, and there the first one ends or has the smaller character. */
  predicate FirstDifference(a: string, b: string, k: nat) {
    k <= |a| && k <= |b| && a[..k] == b[..k] && (k == |a| || (k < |b| && a[k] < b[k]))
  }

  lemma {:induction false} LeExactly(a: string, b: string)
    ensures Le(a, b) <==> exists k :: FirstDifference(a, b, k)
  {
    if Le(a, b) {
      var k := LeDifference(a, b);
    }
    if k :| FirstDifference(a, b, k) {
      DifferenceLe(a, b, k);
    }
  }

  lemma {:induction false} LeDifference(a: string, b: string) returns (k: nat)
    requires Le(a, b)
    ensures FirstDifference(a, b, k)
  {
    if a == [] || a[0] < b[0] {
      k := 0;
    } else {
      var j := LeDifference(a[1..], b[1..]);
      k := j + 1;
      assert a[..k] == [a[0]] + a[1..][..j] && b[..k] == [b[0]] + b[1..][..j];
    }
  }

  lemma {:induction false} DifferenceLe(a: string, b: string, k: nat)
    requires FirstDifference(a, b, k)
    ensures Le(a, b)
  {
    if k > 0 {
      assert a[0] == a[..k][0] && b[0] == b[..k][0];
      assert a[1..][..k - 1] == a[..k][1..] && b[1..][..k - 1] == b[..k][1..];
      DifferenceLe(a[1..], b[1..], k - 1);
    }
  }

  /** Non-decreasing. */
  ghost predicate Sorted(s: seq<string>) {
    forall i, j :: 0 <= i < j < |s| ==> Le(s[i], s[j])
  }

  function Insert(x: string, s: seq<string>): (r: seq<string>)
    ensures multiset(r) == multiset{x} + multiset(s)
  {
    if s == [] || Le(x, s[0]) then
      assert [x] + s == [x] + s;
      [x] + s
    else
      assert s == [s[0]] + s[1..];
      [s[0]] + Insert(x, s[1..])
  }

  lemma {:induction false} InsertSorted(x: string, s: seq<string>)
    requires Sorted(s)
    ensures Sorted(Insert(x, s))
  {
    if s == [] {
    } else if Le(x, s[0]) {
      forall j | 0 <= j < |s| ensures Le(x, s[j]) {
        if j > 0 { LeTransitive(x, s[0], s[j]); }
      }
    } else {
      LeTotal(x, s[0]);
      var t := Insert(x, s[1..]);
      InsertSorted(x, s[1..]);
      forall j | 0 <= j < |t| ensures Le(s[0], t[j]) {
        assert t[j] in multiset(t);
        assert t[j] == x || t[j] in s[1..];
      }
    }
  }

  function Sort(s: seq<string>): (r: seq<string>)
    ensures multiset(r) == multiset(s)
  {
    if s == [] then []
    else
      assert s == [s[0]] + s[1..];
      Insert(s[0], Sort(s[1..]))
  }

  lemma {:induction false} SortSorted(s: seq<string>)
    ensures Sorted(Sort(s))
  {
    if s != [] {
      SortSorted(s[1..]);
      InsertSorted(s[0], Sort(s[1..]));
    }
  }

  /** A multiset of strings has only one sorted listing. */
  lemma {:induction false} SortedUnique(a: seq<string>, b: seq<string>)
    requires Sorted(a) && Sorted(b) && multiset(a) == multiset(b)
    ensures a == b
  {
    if a == [] {
      assert |b| == |multiset(b)|;
    } else {
      HeadsEqual(a, b);
      SortedTail(a);
      SortedTail(b);
      SortedUnique(a[1..], b[1..]);
    }
  }

  lemma HeadsEqual(a: seq<string>, b: seq<string>)
    requires a != [] && Sorted(a) && Sorted(b) && multiset(a) == multiset(b)
    ensures b != [] && a == [a[0]] + a[1..] && b == [a[0]] + b[1..]
    ensures multiset(a[1..]) == multiset(b[1..])
  {
    assert a[0] in multiset(b);
    assert b[0] in multiset(a);
    HeadLeast(a, b[0]);
    HeadLeast(b, a[0]);
    LeTotal(a[0], b[0]);
    TailMultiset(a);
    TailMultiset(b);
  }

  lemma SortedTail(a: seq<string>)
    requires Sorted(a) && a != []
    ensures Sorted(a[1..])
  {
    forall i, j | 0 <= i < j < |a| - 1 ensures Le(a[1..][i], a[1..][j]) {
      assert Le(a[i + 1], a[j + 1]);
    }
  }

  lemma HeadLeast(a: seq<string>, x: string)
    requires Sorted(a) && x in a
    ensures Le(a[0], x)
  {
    LeTotal(x, x);
  }

  lemma TailMultiset(a: seq<string>)
    requires a != []
    ensures multiset(a[1..]) == multiset(a) - multiset{a[0]}
  {
    assert a == [a[0]] + a[1..];
  }

  /** Two lists sort alike exactly when they are permutations of each other. */
  lemma SortAlike(a: seq<string>, b: seq<string>)
    ensures Sort(a) == Sort(b) <==> multiset(a) == multiset(b)
  {
    SortSorted(a);
    SortSorted(b);
    if multiset(a) == multiset(b) {
      SortedUnique(Sort(a), Sort(b));
    }
  }

  lemma {:induction false} LeastExists(s: set<string>)
    requires s != {}
    ensures exists x :: IsLeast(x, s)
  {
    var x :| x in s;
    var rest := s - {x};
    LeTotal(x, x);
    if rest == {} {
      assert s == {x};
      assert IsLeast(x, s);
    } else {
      LeastExists(rest);
      var y :| IsLeast(y, rest);
      LeTotal(x, y);
      if Le(x, y) {
        forall z | z in s ensures Le(x, z) {
          if z != x { LeTransitive(x, y, z); }
        }
        assert IsLeast(x, s);
      } else {
        assert IsLeast(y, s);
      }
    }
  }

  predicate IsLeast(x: string, s: set<string>) {
    x in s && forall y :: y in s ==> Le(x, y)
  }

  function Least(s: set<string>): (x: string)
    requires s != {}
    ensures IsLeast(x, s)
  {
    LeastExists(s);
    assert forall x, y :: IsLeast(x, s) && IsLeast(y, s) ==> x == y by {
      forall x, y | IsLeast(x, s) && IsLeast(y, s) ensures x == y { LeTotal(x, y); }
    }
    var x :| IsLeast(x, s);
    x
  }

  /** `sorted` of a set: every member once, in order. */
  function Listing(s: set<string>): (r: seq<string>)
    ensures forall x :: x in r <==> x in s
    ensures |r| == |s|
    decreases |s|
  {
    if s == {} then [] else
      var x := Least(s);
      [x] + Listing(s - {x})
  }

  lemma {:induction false} ListingSorted(s: set<string>)
    ensures Sorted(Listing(s))
    decreases |s|
  {
    hide Le;
    if s != {} {
      var x := Least(s);
      ListingSorted(s - {x});
      LeastFirst(x, Listing(s - {x}));
    }
  }

  lemma LeastFirst(x: string, rest: seq<string>)
    requires Sorted(rest) && forall y :: y in rest ==> Le(x, y)
    ensures Sorted([x] + rest)
  {
    hide Le;
  }
}
