/** A stable sort under a given order, standing for the library sort. */
module StableSort {

  ghost predicate TotalPreorder<T(!new)>(le: (T, T) -> bool) {
    && (forall a, b :: le(a, b) || le(b, a))
    && (forall a, b, c :: le(a, b) && le(b, c) ==> le(a, c))
  }

  ghost predicate SortedBy<T>(le: (T, T) -> bool, s: seq<T>) {
    forall i, j :: 0 <= i < j < |s| ==> le(s[i], s[j])
  }

  function Insert<T(==)>(le: (T, T) -> bool, x: T, s: seq<T>): (r: seq<T>)
    ensures multiset(r) == multiset(s) + multiset{x}
  {
    if s == [] || le(x, s[0]) then [x] + s
    else
      assert s == [s[0]] + s[1..];
      [s[0]] + Insert(le, x, s[1..])
  }

  function Sort<T(==)>(le: (T, T) -> bool, s: seq<T>): (r: seq<T>)
    ensures multiset(r) == multiset(s)
  {
    if s == [] then []
    else
      assert s == [s[0]] + s[1..];
      Insert(le, s[0], Sort(le, s[1..]))
  }

  lemma InsertSorts<T(!new)>(le: (T, T) -> bool, x: T, s: seq<T>)
    requires TotalPreorder(le) && SortedBy(le, s)
    ensures SortedBy(le, Insert(le, x, s))
  {
    if s != [] && !le(x, s[0]) {
      InsertSorts(le, x, s[1..]);
      var rest := Insert(le, x, s[1..]);
      forall j | 0 <= j < |rest|
        ensures le(s[0], rest[j])
      {
        assert rest[j] in multiset(rest);
        assert rest[j] == x || rest[j] in s[1..];
      }
    }
  }

  lemma SortSorts<T(!new)>(le: (T, T) -> bool, s: seq<T>)
    requires TotalPreorder(le)
    ensures SortedBy(le, Sort(le, s))
  {
    if s != [] {
      SortSorts(le, s[1..]);
      InsertSorts(le, s[0], Sort(le, s[1..]));
    }
  }

  /** A sorted sequence holds the same elements as the original. */
  lemma SortKeepsElements<T>(le: (T, T) -> bool, s: seq<T>)
    ensures forall x :: x in Sort(le, s) <==> x in s
    ensures |Sort(le, s)| == |s|
  {
    var r := Sort(le, s);
    assert forall x :: x in r <==> x in multiset(r);
    assert forall x :: x in s <==> x in multiset(s);
    assert |multiset(r)| == |r| && |multiset(s)| == |s|;
  }

  /** The elements in class `c`, in order. */
  function Filter<T>(c: T -> bool, s: seq<T>): seq<T> {
    if s == [] then [] else (if c(s[0]) then [s[0]] else []) + Filter(c, s[1..])
  }

  lemma FilterCons<T>(c: T -> bool, x: T, s: seq<T>)
    ensures Filter(c, [x] + s) == (if c(x) then [x] else []) + Filter(c, s)
  {
    assert ([x] + s)[1..] == s;
  }

  /** The order does not tell elements of class `c` apart. */
  ghost predicate Alike<T(!new)>(le: (T, T) -> bool, c: T -> bool) {
    forall a, b :: c(a) && c(b) ==> le(a, b)
  }

  lemma {:induction false} InsertIsStable<T(!new)>(le: (T, T) -> bool, c: T -> bool, x: T, s: seq<T>)
    requires Alike(le, c)
    ensures Filter(c, Insert(le, x, s)) == (if c(x) then [x] else []) + Filter(c, s)
  {
    if s == [] || le(x, s[0]) {
      FilterCons(c, x, s);
    } else {
      assert !(c(x) && c(s[0]));
      InsertIsStable(le, c, x, s[1..]);
      FilterCons(c, s[0], Insert(le, x, s[1..]));
    }
  }

  /** Sorting keeps the order of elements that the order does not tell apart. */
  lemma {:induction false} SortIsStable<T(!new)>(le: (T, T) -> bool, c: T -> bool, s: seq<T>)
    requires Alike(le, c)
    ensures Filter(c, Sort(le, s)) == Filter(c, s)
  {
    if s != [] {
      SortIsStable(le, c, s[1..]);
      InsertIsStable(le, c, s[0], Sort(le, s[1..]));
    }
  }
}
