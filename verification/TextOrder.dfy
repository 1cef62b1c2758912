/** Code-unit order on text, and sorting under a strict total order. */
module TextOrder {

  predicate TextLess(a: string, b: string) {
    b != "" && (a == "" || a[0] < b[0] || (a[0] == b[0] && TextLess(a[1..], b[1..])))
  }

  lemma {:induction false} TextLessTransitive(a: string, b: string, c: string)
    requires TextLess(a, b) && TextLess(b, c)
    ensures TextLess(a, c)
    decreases |a|
  {
    if a != "" && a[0] == b[0] == c[0] {
      TextLessTransitive(a[1..], b[1..], c[1..]);
    }
  }

  lemma {:induction false} TextLessTotal(a: string, b: string)
    ensures TextLess(a, b) || a == b || TextLess(b, a)
    ensures !(TextLess(a, b) && TextLess(b, a)) && !TextLess(a, a)
    decreases |a|
  {
    if a != "" {
      TextLessTotal(a[1..], a[1..]);
      if b != "" {
        TextLessTotal(a[1..], b[1..]);
        assert a[0] == b[0] && a[1..] == b[1..] ==> a == [b[0]] + b[1..] == b;
      }
    }
  }

  /** `a` comes first in code-unit order: it is a proper prefix, or has the smaller unit where they first differ. */
  ghost predicate Precedes(a: string, b: string) {
    exists i :: DiffersAt(a, b, i)
  }

  ghost predicate DiffersAt(a: string, b: string, i: int) {
    && 0 <= i <= |a| && i < |b| && a[..i] == b[..i]
    && (i == |a| || a[i] < b[i])
  }

  lemma {:induction false} TextLessIff(a: string, b: string)
    ensures TextLess(a, b) <==> Precedes(a, b)
    decreases |a|
  {
    if a == "" {
      assert b != "" ==> DiffersAt(a, b, 0);
    } else if b != "" {
      TextLessIff(a[1..], b[1..]);
      assert a[0] < b[0] ==> DiffersAt(a, b, 0);
      if i :| DiffersAt(a[1..], b[1..], i) {
        assert a[..i + 1] == [a[0]] + a[1..][..i] && b[..i + 1] == [b[0]] + b[1..][..i];
        assert a[0] == b[0] ==> DiffersAt(a, b, i + 1);
      }
      if i :| DiffersAt(a, b, i) {
        if i > 0 {
          assert a[0] == a[..i][0] == b[..i][0] == b[0];
          assert a[1..][..i - 1] == a[..i][1..] && b[1..][..i - 1] == b[..i][1..];
          assert DiffersAt(a[1..], b[1..], i - 1);
        }
      }
    }
  }

  ghost predicate StrictTotal<T(!new)>(less: (T, T) -> bool) {
    && (forall a :: !less(a, a))
    && (forall a, b, c :: less(a, b) && less(b, c) ==> less(a, c))
    && (forall a, b :: less(a, b) || a == b || less(b, a))
  }

  lemma TextLessStrictTotal()
    ensures StrictTotal(TextLess)
  {
    forall a, b, c | TextLess(a, b) && TextLess(b, c) ensures TextLess(a, c) {
      TextLessTransitive(a, b, c);
    }
    forall a, b ensures TextLess(a, b) || a == b || TextLess(b, a) {
      TextLessTotal(a, b);
    }
    forall a ensures !TextLess(a, a) {
      TextLessTotal(a, a);
    }
  }

  lemma NotLessTransitive<T(!new)>(less: (T, T) -> bool, a: T, b: T, c: T)
    requires StrictTotal(less) && !less(b, a) && !less(c, b)
    ensures !less(c, a)
  {
    assert less(a, b) || a == b;
  }

  /** No element is less than an earlier one. */
  ghost predicate Ordered<T(!new)>(less: (T, T) -> bool, s: seq<T>) {
    s == [] || (LowerBound(less, s[0], s[1..]) && Ordered(less, s[1..]))
  }

  ghost predicate LowerBound<T(!new)>(less: (T, T) -> bool, x: T, s: seq<T>) {
    forall y :: y in s ==> !less(y, x)
  }

  /** Every element is less than all later ones. */
  ghost predicate Ascending<T(!new)>(less: (T, T) -> bool, s: seq<T>) {
    s == [] || ((forall y :: y in s[1..] ==> less(s[0], y)) && Ascending(less, s[1..]))
  }

  lemma {:induction false} AscendingAt<T(!new)>(less: (T, T) -> bool, s: seq<T>, i: nat, j: nat)
    requires Ascending(less, s) && i < j < |s|
    ensures less(s[i], s[j])
    decreases |s|
  {
    if i > 0 {
      AscendingAt(less, s[1..], i - 1, j - 1);
    }
  }

  ghost predicate Distinct<T>(s: seq<T>) {
    s == [] || (s[0] !in s[1..] && Distinct(s[1..]))
  }

  function Insert<T>(less: (T, T) -> bool, x: T, s: seq<T>): seq<T> {
    if s == [] || less(x, s[0]) then [x] + s else [s[0]] + Insert(less, x, s[1..])
  }

  function Sorted<T>(less: (T, T) -> bool, s: seq<T>): seq<T> {
    if s == [] then [] else Insert(less, s[0], Sorted(less, s[1..]))
  }

  lemma {:induction false} InsertContents<T>(less: (T, T) -> bool, x: T, s: seq<T>)
    ensures multiset(Insert(less, x, s)) == multiset{x} + multiset(s)
    decreases |s|
  {
    if s != [] {
      InsertContents(less, x, s[1..]);
      assert s == [s[0]] + s[1..];
    }
  }

  lemma MemberOfInsert<T>(less: (T, T) -> bool, x: T, s: seq<T>, y: T)
    ensures y in Insert(less, x, s) <==> y == x || y in s
  {
    InsertContents(less, x, s);
    assert y in Insert(less, x, s) <==> y in multiset(Insert(less, x, s));
  }

  lemma {:induction false} InsertOrdered<T(!new)>(less: (T, T) -> bool, x: T, s: seq<T>)
    requires StrictTotal(less) && Ordered(less, s)
    ensures Ordered(less, Insert(less, x, s))
    decreases |s|
  {
    hide StrictTotal;
    var r := Insert(less, x, s);
    if s == [] {
    } else if less(x, s[0]) {
      LessExcludes(less, x, s[0]);
      forall y | y in s ensures !less(y, x) {
        if y != s[0] {
          assert y in s[1..];
          NotLessTransitive(less, x, s[0], y);
        }
      }
      assert r[1..] == s;
    } else {
      InsertOrdered(less, x, s[1..]);
      forall y | y in r[1..] ensures !less(y, s[0]) {
        MemberOfInsert(less, x, s[1..], y);
      }
    }
  }

  lemma LessExcludes<T(!new)>(less: (T, T) -> bool, a: T, b: T)
    requires StrictTotal(less) && less(a, b)
    ensures !less(b, a)
  {
  }

  lemma LessChoice<T(!new)>(less: (T, T) -> bool, a: T, b: T)
    requires StrictTotal(less) && !less(a, b) && !less(b, a)
    ensures a == b
  {
  }

  lemma NotLessSelf<T(!new)>(less: (T, T) -> bool, a: T)
    requires StrictTotal(less)
    ensures !less(a, a)
  {
  }

  lemma {:induction false} SortedKeeps<T(!new)>(less: (T, T) -> bool, s: seq<T>)
    requires StrictTotal(less)
    ensures multiset(Sorted(less, s)) == multiset(s)
    ensures Ordered(less, Sorted(less, s))
    decreases |s|
  {
    hide StrictTotal;
    if s != [] {
      SortedKeeps(less, s[1..]);
      InsertContents(less, s[0], Sorted(less, s[1..]));
      InsertOrdered(less, s[0], Sorted(less, s[1..]));
      assert s == [s[0]] + s[1..];
    }
  }

  /** An ordered list is determined by its contents. */
  lemma {:induction false} OrderedUnique<T(!new)>(less: (T, T) -> bool, a: seq<T>, b: seq<T>)
    requires StrictTotal(less) && Ordered(less, a) && Ordered(less, b) && multiset(a) == multiset(b)
    ensures a == b
    decreases |a|
  {
    hide StrictTotal;
    if a == [] {
      assert |multiset(b)| == 0;
    } else {
      SameHead(less, a, b);
      TailContents(a);
      TailContents(b);
      OrderedUnique(less, a[1..], b[1..]);
      assert a == [a[0]] + a[1..];
      assert b == [b[0]] + b[1..];
    }
  }

  lemma TailContents<T>(s: seq<T>)
    requires s != []
    ensures multiset(s[1..]) == multiset(s) - multiset{s[0]}
  {
    assert s == [s[0]] + s[1..];
  }

  lemma SameHead<T(!new)>(less: (T, T) -> bool, a: seq<T>, b: seq<T>)
    requires StrictTotal(less) && Ordered(less, a) && Ordered(less, b) && multiset(a) == multiset(b)
    requires a != []
    ensures b != [] && a[0] == b[0]
  {
    hide StrictTotal;
    assert a[0] in multiset(b);
    assert b[0] in multiset(a);
    if a[0] != b[0] {
      assert a[0] in b[1..] && b[0] in a[1..];
      LessChoice(less, a[0], b[0]);
    }
  }

  lemma {:induction false} DistinctCount<T>(s: seq<T>, x: T)
    requires Distinct(s)
    ensures multiset(s)[x] == if x in s then 1 else 0
    decreases |s|
  {
    if s != [] {
      DistinctCount(s[1..], x);
      assert s == [s[0]] + s[1..];
    }
  }

  /** Two lists without repetition that hold the same elements hold them equally often. */
  lemma SameContents<T>(a: seq<T>, b: seq<T>)
    requires Distinct(a) && Distinct(b) && forall x :: x in a <==> x in b
    ensures multiset(a) == multiset(b)
  {
    forall x ensures multiset(a)[x] == multiset(b)[x] {
      DistinctCount(a, x);
      DistinctCount(b, x);
    }
  }

  lemma {:induction false} AscendingIs<T(!new)>(less: (T, T) -> bool, s: seq<T>)
    requires StrictTotal(less)
    ensures Ascending(less, s) <==> Ordered(less, s) && Distinct(s)
    decreases |s|
  {
    hide StrictTotal;
    if s != [] {
      AscendingIs(less, s[1..]);
      if Ascending(less, s) {
        forall y | y in s[1..] ensures !less(y, s[0]) {
          LessExcludes(less, s[0], y);
        }
        NotLessSelf(less, s[0]);
      } else if Ordered(less, s) && Distinct(s) {
        forall y | y in s[1..] ensures less(s[0], y) {
          if !less(s[0], y) {
            LessChoice(less, s[0], y);
          }
        }
      }
    }
  }

  lemma {:induction false} DistinctByCount<T>(a: seq<T>, b: seq<T>)
    requires Distinct(a) && multiset(a) == multiset(b)
    ensures Distinct(b)
  {
    OnceEach(b) by {
      forall x | x in b ensures multiset(b)[x] == 1 {
        DistinctCount(a, x);
        assert x in multiset(b);
      }
    }
  }

  lemma {:induction false} OnceEach<T>(s: seq<T>)
    requires forall x :: x in s ==> multiset(s)[x] == 1
    ensures Distinct(s)
    decreases |s|
  {
    if s != [] {
      assert s == [s[0]] + s[1..];
      assert multiset(s) == multiset{s[0]} + multiset(s[1..]);
      assert s[0] in s && multiset(s)[s[0]] == 1;
      assert s[0] !in multiset(s[1..]);
      forall x | x in s[1..] ensures multiset(s[1..])[x] == 1 {
        assert x in s && x in multiset(s[1..]);
      }
      OnceEach(s[1..]);
    }
  }

  lemma SortedMembers<T(!new)>(less: (T, T) -> bool, s: seq<T>, x: T)
    requires StrictTotal(less)
    ensures x in Sorted(less, s) <==> x in s
  {
    SortedKeeps(less, s);
    assert x in Sorted(less, s) <==> x in multiset(s);
  }

  /** Sorting a list without repetition gives a strictly ascending list of the same elements. */
  lemma SortedAscending<T(!new)>(less: (T, T) -> bool, s: seq<T>)
    requires StrictTotal(less) && Distinct(s)
    ensures Ascending(less, Sorted(less, s))
    ensures forall x :: x in Sorted(less, s) <==> x in s
  {
    SortedKeeps(less, s);
    DistinctByCount(s, Sorted(less, s));
    AscendingIs(less, Sorted(less, s));
    forall x ensures x in Sorted(less, s) <==> x in s {
      SortedMembers(less, s, x);
    }
  }

  lemma AscendingUnique<T(!new)>(less: (T, T) -> bool, a: seq<T>, b: seq<T>)
    requires StrictTotal(less) && Ascending(less, a) && Ascending(less, b)
    requires forall x :: x in a <==> x in b
    ensures a == b
  {
    AscendingIs(less, a);
    AscendingIs(less, b);
    SameContents(a, b);
    OrderedUnique(less, a, b);
  }

  /** The elements of a set in some order. */
  method Listed<T(==)>(s: set<T>) returns (q: seq<T>)
    ensures Distinct(q) && forall x :: x in q <==> x in s
  {
    q := [];
    var rest := s;
    while rest != {}
      invariant rest <= s && Distinct(q)
      invariant forall x :: x in q <==> x in s - rest
      decreases rest
    {
      var x :| x in rest;
      q := [x] + q;
      rest := rest - {x};
    }
  }
}
