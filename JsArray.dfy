/** A JavaScript Set of numbers, kept as its elements in insertion order,
    and Array.prototype.sort with the numeric comparator (a, b) => a - b. */
module JsArray {

  predicate Distinct(xs: seq<int>) {
    forall i, j :: 0 <= i < j < |xs| ==> xs[i] != xs[j]
  }

  predicate Ascending(xs: seq<int>) {
    forall i, j :: 0 <= i < j < |xs| ==> xs[i] <= xs[j]
  }

  predicate StrictlyAscending(xs: seq<int>) {
    forall i, j :: 0 <= i < j < |xs| ==> xs[i] < xs[j]
  }

  /** Set.prototype.add: a value already present changes nothing, a new one
      goes at the end of the insertion order. */
  function SetAdd(xs: seq<int>, x: int): (r: seq<int>)
    ensures Distinct(xs) ==> Distinct(r)
    ensures forall y :: y in r <==> y in xs || y == x
    ensures xs <= r
  {
    if x in xs then xs else xs + [x]
  }

  /** Puts `x` into its place in an ascending sequence. */
  function Insert(x: int, xs: seq<int>): (r: seq<int>)
    ensures forall y :: y in r <==> y == x || y in xs
    ensures multiset(r) == multiset(xs) + multiset{x}
    ensures Ascending(xs) ==> Ascending(r)
    ensures StrictlyAscending(xs) && x !in xs ==> StrictlyAscending(r)
  {
    if xs == [] || x <= xs[0] then
      assert Ascending(xs) ==> Ascending([x] + xs) by {
        if Ascending(xs) {
          PrependAscending(x, xs);
        }
      }
      assert StrictlyAscending(xs) && x !in xs ==> StrictlyAscending([x] + xs) by {
        if StrictlyAscending(xs) && x !in xs {
          assert xs != [] ==> x < xs[0];
          PrependAscending(x, xs);
        }
      }
      [x] + xs
    else
      var rest := Insert(x, xs[1..]);
      assert xs == [xs[0]] + xs[1..];
      assert Ascending(xs) ==> Ascending([xs[0]] + rest) by {
        if Ascending(xs) {
          PrependAscending(xs[0], rest);
        }
      }
      assert StrictlyAscending(xs) && x !in xs ==> StrictlyAscending([xs[0]] + rest) by {
        if StrictlyAscending(xs) && x !in xs {
          PrependAscending(xs[0], rest);
        }
      }
      [xs[0]] + rest
  }

  /** Putting in front an element no larger (smaller) than all the others
      keeps a sequence ascending (strictly ascending). */
  lemma PrependAscending(h: int, xs: seq<int>)
    ensures Ascending(xs) && (forall y :: y in xs ==> h <= y) ==> Ascending([h] + xs)
    ensures StrictlyAscending(xs) && (forall y :: y in xs ==> h < y) ==> StrictlyAscending([h] + xs)
  {
    var r := [h] + xs;
    forall i, j | 0 < i < j < |r| ensures r[i] == xs[i - 1] && r[j] == xs[j - 1] { }
    forall j | 0 < j < |r| ensures r[j] in xs { assert r[j] == xs[j - 1]; }
  }

  /** The numeric sort: the same elements, as often as before, ascending;
      strictly ascending when no element is repeated. */
  function SortAscending(xs: seq<int>): (r: seq<int>)
    ensures multiset(r) == multiset(xs)
    ensures Ascending(r)
    ensures Distinct(xs) ==> StrictlyAscending(r)
  {
    if xs == [] then []
    else
      var rest := SortAscending(xs[1..]);
      assert xs == [xs[0]] + xs[1..];
      assert Distinct(xs) ==> Distinct(xs[1..]) && xs[0] !in xs[1..] by {
        if Distinct(xs) {
          assert forall i, j :: 0 <= i < j < |xs[1..]| ==> xs[1..][i] == xs[i + 1] && xs[1..][j] == xs[j + 1];
        }
      }
      assert xs[0] in rest <==> xs[0] in multiset(xs[1..]);
      Insert(xs[0], rest)
  }

  /** A strictly ascending sequence is fixed by its elements: two with the
      same elements are the same sequence. */
  lemma {:induction false} StrictlyAscendingUnique(a: seq<int>, b: seq<int>)
    requires StrictlyAscending(a) && StrictlyAscending(b)
    requires forall x :: x in a <==> x in b
    ensures a == b
  {
    if a != [] {
      assert a[0] in a;
    }
    if b != [] {
      assert b[0] in b;
    }
    if a != [] && b != [] {
      assert a[0] == b[0] by {
        var i :| 0 <= i < |b| && b[i] == a[0];
        var j :| 0 <= j < |a| && a[j] == b[0];
        assert a[0] <= a[j] && b[0] <= b[i];
      }
      forall x ensures x in a[1..] <==> x in b[1..] {
        if x in a[1..] {
          var i :| 1 <= i < |a| && a[i] == x;
          assert a[0] < x;
        }
        if x in b[1..] {
          var i :| 1 <= i < |b| && b[i] == x;
          assert b[0] < x;
        }
        assert x in a <==> x == a[0] || x in a[1..];
        assert x in b <==> x == b[0] || x in b[1..];
      }
      StrictlyAscendingUnique(a[1..], b[1..]);
      assert a == [a[0]] + a[1..] && b == [b[0]] + b[1..];
    }
  }
}
