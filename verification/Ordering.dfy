/** A stable sort, and why the result depends only on the elements when no two of them tie. */
module Ordering {

  /** Puts `x` in front of the first element that is not strictly before it. */
  function Insert<T>(x: T, s: seq<T>, before: (T, T) -> bool): (r: seq<T>)
    ensures |r| == |s| + 1
    ensures multiset(r) == multiset{x} + multiset(s)
  {
    if s == [] then [x]
    else if !before(s[0], x) then [x] + s
    else
      assert s == [s[0]] + s[1..];
      [s[0]] + Insert(x, s[1..], before)
  }

  /** `Array.prototype.sort` with a consistent comparison. */
  function Sort<T>(s: seq<T>, before: (T, T) -> bool): (r: seq<T>)
    ensures |r| == |s|
    ensures multiset(r) == multiset(s)
  {
    if s == [] then []
    else
      assert s == [s[0]] + s[1..];
      Insert(s[0], Sort(s[1..], before), before)
  }

  ghost predicate StrictOrder<T(!new)>(before: (T, T) -> bool) {
    && (forall a :: !before(a, a))
    && (forall a, b, c :: before(a, b) && before(b, c) ==> before(a, c))
  }

  ghost predicate Ascending<T>(s: seq<T>, before: (T, T) -> bool) {
    forall i, j :: 0 <= i < j < |s| ==> before(s[i], s[j])
  }

  /** No two positions tie. */
  ghost predicate Comparable<T>(s: seq<T>, before: (T, T) -> bool) {
    forall i, j :: 0 <= i < j < |s| ==> before(s[i], s[j]) || before(s[j], s[i])
  }

  ghost predicate SameElements<T(!new)>(a: seq<T>, b: seq<T>) {
    forall x :: x in a <==> x in b
  }

  lemma SortElements<T(!new)>(s: seq<T>, before: (T, T) -> bool)
    ensures SameElements(Sort(s, before), s)
  {
    forall x ensures x in Sort(s, before) <==> x in s {
      assert x in Sort(s, before) <==> x in multiset(Sort(s, before));
    }
  }

  lemma {:induction false} InsertAscending<T(!new)>(x: T, s: seq<T>, before: (T, T) -> bool)
    requires StrictOrder(before) && Ascending(s, before)
    requires forall y :: y in s ==> before(x, y) || before(y, x)
    ensures Ascending(Insert(x, s, before), before)
  {
    if s != [] {
      var r := Insert(x, s, before);
      if before(s[0], x) {
        InsertAscending(x, s[1..], before);
        var rest := Insert(x, s[1..], before);
        forall j | 0 <= j < |rest| ensures before(s[0], rest[j]) {
          assert rest[j] in multiset(rest);
          assert rest[j] == x || rest[j] in s[1..];
        }
      } else {
        assert s[0] in s;
        assert forall j :: 1 <= j < |s| ==> before(s[0], s[j]);
      }
    }
  }

  lemma {:induction false} SortAscending<T(!new)>(s: seq<T>, before: (T, T) -> bool)
    requires StrictOrder(before) && Comparable(s, before)
    ensures Ascending(Sort(s, before), before)
  {
    if s != [] {
      SortAscending(s[1..], before);
      SortElements(s[1..], before);
      forall y | y in Sort(s[1..], before) ensures before(s[0], y) || before(y, s[0]) {
        var j :| 0 <= j < |s[1..]| && s[1..][j] == y;
        assert s[j + 1] == y;
      }
      InsertAscending(s[0], Sort(s[1..], before), before);
    }
  }

  /** An ascending sequence is determined by its elements. */
  lemma {:induction false} AscendingUnique<T(!new)>(a: seq<T>, b: seq<T>, before: (T, T) -> bool)
    requires StrictOrder(before) && Ascending(a, before) && Ascending(b, before)
    requires SameElements(a, b)
    ensures a == b
  {
    if a == [] {
      assert forall i :: 0 <= i < |b| ==> b[i] in b;
    } else {
      assert a[0] in b && b[0] in a by {
        assert a[0] in a;
        assert b != [];
        assert b[0] in b;
      }
      assert a[0] == b[0];
      forall x ensures x in a[1..] <==> x in b[1..] {
        assert x in a <==> x in b;
        assert a == [a[0]] + a[1..] && b == [b[0]] + b[1..];
        assert a[0] !in a[1..] && b[0] !in b[1..];
      }
      AscendingUnique(a[1..], b[1..], before);
    }
  }

  /** Sorting forgets the input order: only the elements matter when none tie. */
  lemma SortCanonical<T(!new)>(a: seq<T>, b: seq<T>, before: (T, T) -> bool)
    requires StrictOrder(before) && Comparable(a, before) && Comparable(b, before)
    requires SameElements(a, b)
    ensures Sort(a, before) == Sort(b, before)
  {
    SortAscending(a, before);
    SortAscending(b, before);
    SortElements(a, before);
    SortElements(b, before);
    AscendingUnique(Sort(a, before), Sort(b, before), before);
  }

  /** In a permutation, the first element can be taken out of both sides. */
  lemma TakeOut<T>(a: seq<T>, b: seq<T>) returns (j: nat)
    requires a != [] && multiset(a) == multiset(b)
    ensures j < |b| && b[j] == a[0]
    ensures multiset(a[1..]) == multiset(b[..j] + b[j + 1..])
  {
    assert a == [a[0]] + a[1..];
    assert a[0] in multiset(b);
    j :| 0 <= j < |b| && b[j] == a[0];
    var others := b[..j] + b[j + 1..];
    assert b == b[..j] + [b[j]] + b[j + 1..];
    assert multiset(b) == multiset(others) + multiset{a[0]};
    assert multiset(a[1..]) == multiset(a) - multiset{a[0]};
  }
}
