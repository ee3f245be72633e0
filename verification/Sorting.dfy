/** Python's `sorted` on values with a total order: the result is determined by the multiset
    of its input, which is what makes an order-normalised digest independent of input order. */
module Sorting {
  ghost predicate TotalOrder<T(!new)>(le: (T, T) -> bool) {
    && (forall x :: le(x, x))
    && (forall x, y :: le(x, y) || le(y, x))
    && (forall x, y :: le(x, y) && le(y, x) ==> x == y)
    && (forall x, y, z :: le(x, y) && le(y, z) ==> le(x, z))
  }

  ghost predicate Ascending<T>(s: seq<T>, le: (T, T) -> bool) {
    forall i, j :: 0 <= i < j < |s| ==> le(s[i], s[j])
  }

  function Insert<T>(x: T, s: seq<T>, le: (T, T) -> bool): (r: seq<T>)
    ensures multiset(r) == multiset(s) + multiset{x}
  {
    if s == [] then [x]
    else if le(x, s[0]) then [x] + s
    else
      var rest := Insert(x, s[1..], le);
      assert s == [s[0]] + s[1..];
      [s[0]] + rest
  }

  function Sorted<T>(s: seq<T>, le: (T, T) -> bool): (r: seq<T>)
    ensures multiset(r) == multiset(s)
  {
    if s == [] then []
    else
      assert s == [s[0]] + s[1..];
      Insert(s[0], Sorted(s[1..], le), le)
  }

  lemma {:induction false} InsertAscending<T(!new)>(x: T, s: seq<T>, le: (T, T) -> bool)
    requires TotalOrder(le) && Ascending(s, le)
    ensures Ascending(Insert(x, s, le), le)
  {
    if s != [] && !le(x, s[0]) {
      var rest := Insert(x, s[1..], le);
      InsertAscending(x, s[1..], le);
      forall y | y in rest ensures le(s[0], y) {
        assert y in multiset(rest);
        assert y == x || y in s[1..];
      }
    }
  }

  lemma {:induction false} SortedAscending<T(!new)>(s: seq<T>, le: (T, T) -> bool)
    requires TotalOrder(le)
    ensures Ascending(Sorted(s, le), le)
  {
    if s != [] {
      SortedAscending(s[1..], le);
      InsertAscending(s[0], Sorted(s[1..], le), le);
    }
  }

  lemma FirstIsLeast<T(!new)>(s: seq<T>, x: T, le: (T, T) -> bool)
    requires TotalOrder(le) && Ascending(s, le) && x in multiset(s)
    ensures s != [] && le(s[0], x)
  {
    var i :| 0 <= i < |s| && s[i] == x;
  }

  lemma Antisymmetric<T(!new)>(x: T, y: T, le: (T, T) -> bool)
    requires TotalOrder(le) && le(x, y) && le(y, x)
    ensures x == y
  {
  }

  lemma SameSize<T>(a: seq<T>, b: seq<T>)
    requires multiset(a) == multiset(b)
    ensures |a| == |b|
  {
    assert |a| == |multiset(a)| && |b| == |multiset(b)|;
  }

  lemma HeadAndTail<T(!new)>(s: seq<T>, le: (T, T) -> bool)
    requires Ascending(s, le) && s != []
    ensures s[0] in multiset(s) && s == [s[0]] + s[1..] && Ascending(s[1..], le)
    ensures multiset(s[1..]) == multiset(s) - multiset{s[0]}
  {
    assert multiset([s[0]] + s[1..]) == multiset{s[0]} + multiset(s[1..]);
  }

  /** An ascending sequence is determined by its multiset of elements. */
  lemma {:induction false} AscendingUnique<T(!new)>(a: seq<T>, b: seq<T>, le: (T, T) -> bool)
    requires TotalOrder(le) && Ascending(a, le) && Ascending(b, le)
    requires multiset(a) == multiset(b)
    ensures a == b
  {
    hide TotalOrder, Ascending;
    SameSize(a, b);
    if a != [] {
      HeadAndTail(a, le);
      HeadAndTail(b, le);
      FirstIsLeast(a, b[0], le);
      FirstIsLeast(b, a[0], le);
      Antisymmetric(a[0], b[0], le);
      AscendingUnique(a[1..], b[1..], le);
    }
  }

  /** Sorting forgets the order of its input and nothing else. */
  lemma SortedByContents<T(!new)>(s: seq<T>, t: seq<T>, le: (T, T) -> bool)
    requires TotalOrder(le)
    ensures Sorted(s, le) == Sorted(t, le) <==> multiset(s) == multiset(t)
  {
    SortedAscending(s, le);
    SortedAscending(t, le);
    if multiset(s) == multiset(t) {
      AscendingUnique(Sorted(s, le), Sorted(t, le), le);
    }
  }

  /** Python's `<=` on strings: by code point, a proper prefix first. */
  predicate StringLe(a: string, b: string) {
    a == [] || (b != [] && (a[0] < b[0] || (a[0] == b[0] && StringLe(a[1..], b[1..]))))
  }

  lemma {:induction false} StringLeConnex(a: string, b: string)
    ensures StringLe(a, b) || StringLe(b, a)
    ensures StringLe(a, b) && StringLe(b, a) ==> a == b
  {
    if a != [] && b != [] && a[0] == b[0] {
      StringLeConnex(a[1..], b[1..]);
      assert a == [a[0]] + a[1..] && b == [b[0]] + b[1..];
    }
  }

  lemma {:induction false} StringLeTransitive(a: string, b: string, c: string)
    requires StringLe(a, b) && StringLe(b, c)
    ensures StringLe(a, c)
  {
    if a != [] && a[0] == b[0] && b[0] == c[0] {
      StringLeTransitive(a[1..], b[1..], c[1..]);
    }
  }
}
