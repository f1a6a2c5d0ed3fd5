/** Python's `sorted` and JavaScript's `Array.sort`: a stable sort by a total
    preorder, given once for every module that sorts. */
module Sorting {
  ghost predicate TotalPreorder<T(!new)>(le: (T, T) -> bool) {
    && (forall a, b :: le(a, b) || le(b, a))
    && (forall a, b, c :: le(a, b) && le(b, c) ==> le(a, c))
  }

  predicate Sorted<T>(s: seq<T>, le: (T, T) -> bool) {
    forall i, j | 0 <= i < j < |s| :: le(s[i], s[j])
  }

  function Insert<T>(x: T, s: seq<T>, le: (T, T) -> bool): seq<T> {
    if s == [] || le(x, s[0]) then [x] + s else [s[0]] + Insert(x, s[1..], le)
  }

  function SortBy<T>(s: seq<T>, le: (T, T) -> bool): seq<T> {
    if s == [] then [] else Insert(s[0], SortBy(s[1..], le), le)
  }

  function Filter<T>(s: seq<T>, keep: T -> bool): seq<T> {
    if s == [] then [] else (if keep(s[0]) then [s[0]] else []) + Filter(s[1..], keep)
  }

  lemma {:induction false} InsertIsPermutation<T>(x: T, s: seq<T>, le: (T, T) -> bool)
    ensures multiset(Insert(x, s, le)) == multiset([x] + s)
  {
    if s != [] && !le(x, s[0]) {
      InsertIsPermutation(x, s[1..], le);
      assert s == [s[0]] + s[1..];
    }
  }

  lemma {:induction false} SortIsPermutation<T>(s: seq<T>, le: (T, T) -> bool)
    ensures multiset(SortBy(s, le)) == multiset(s)
    ensures |SortBy(s, le)| == |s|
    ensures forall x :: x in SortBy(s, le) <==> x in s
  {
    if s != [] {
      SortIsPermutation(s[1..], le);
      InsertIsPermutation(s[0], SortBy(s[1..], le), le);
      assert s == [s[0]] + s[1..];
    }
    assert |multiset(SortBy(s, le))| == |multiset(s)|;
    forall x ensures x in SortBy(s, le) <==> x in s {
      assert x in SortBy(s, le) <==> x in multiset(SortBy(s, le));
      assert x in s <==> x in multiset(s);
    }
  }

  lemma {:induction false} InsertSorts<T(!new)>(x: T, s: seq<T>, le: (T, T) -> bool)
    requires TotalPreorder(le) && Sorted(s, le)
    ensures Sorted(Insert(x, s, le), le)
  {
    if s != [] && !le(x, s[0]) {
      InsertSorts(x, s[1..], le);
      InsertIsPermutation(x, s[1..], le);
      var r := Insert(x, s[1..], le);
      forall j | 0 <= j < |r| ensures le(s[0], r[j]) {
        assert r[j] in multiset(r);
        assert r[j] in [x] + s[1..];
      }
    }
  }

  lemma {:induction false} SortSorts<T(!new)>(s: seq<T>, le: (T, T) -> bool)
    requires TotalPreorder(le)
    ensures Sorted(SortBy(s, le), le)
  {
    if s != [] {
      SortSorts(s[1..], le);
      InsertSorts(s[0], SortBy(s[1..], le), le);
    }
  }

  /** Appending an element no smaller than any other appends it to the result. */
  lemma {:induction false} SortSnoc<T>(s: seq<T>, x: T, le: (T, T) -> bool)
    requires forall y | y in s :: le(y, x)
    ensures SortBy(s + [x], le) == SortBy(s, le) + [x]
  {
    if s == [] {
      assert SortBy([x], le) == Insert(x, SortBy([], le), le);
      assert s + [x] == [x];
    } else {
      SortSnoc(s[1..], x, le);
      assert (s + [x])[1..] == s[1..] + [x];
      InsertBeforeLast(s[0], SortBy(s[1..], le), x, le);
    }
  }

  lemma {:induction false} InsertBeforeLast<T>(y: T, s: seq<T>, x: T, le: (T, T) -> bool)
    requires le(y, x)
    ensures Insert(y, s + [x], le) == Insert(y, s, le) + [x]
  {
    if s == [] {
      assert s + [x] == [x];
    } else if !le(y, s[0]) {
      InsertBeforeLast(y, s[1..], x, le);
      assert (s + [x])[1..] == s[1..] + [x];
      assert [s[0]] + (Insert(y, s[1..], le) + [x]) == [s[0]] + Insert(y, s[1..], le) + [x];
    } else {
      assert [y] + (s + [x]) == [y] + s + [x];
    }
  }

  lemma HeadsAgree<T(!new)>(a: seq<T>, b: seq<T>, le: (T, T) -> bool)
    requires TotalPreorder(le) && Sorted(a, le) && Sorted(b, le)
    requires a != [] && b != [] && a[0] in b && b[0] in a
    ensures le(a[0], b[0]) && le(b[0], a[0])
  {
    var i :| 0 <= i < |a| && a[i] == b[0];
    var j :| 0 <= j < |b| && b[j] == a[0];
    assert le(a[0], a[0]) && le(b[0], b[0]);
    assert i > 0 ==> le(a[0], a[i]);
    assert j > 0 ==> le(b[0], b[j]);
  }

  lemma DropHead<T>(a: seq<T>, b: seq<T>)
    requires a != [] && b != [] && a[0] == b[0] && multiset(a) == multiset(b)
    ensures multiset(a[1..]) == multiset(b[1..])
  {
    RemoveFirst(a); RemoveFirst(b);
  }

  /** Two sorted arrangements of the same elements are equal when the order
      tells the elements apart. */
  lemma {:induction false} SortedIsUnique<T(!new)>(a: seq<T>, b: seq<T>, le: (T, T) -> bool)
    requires TotalPreorder(le) && Sorted(a, le) && Sorted(b, le)
    requires multiset(a) == multiset(b)
    requires forall x, y | x in a && y in a :: le(x, y) && le(y, x) ==> x == y
    ensures a == b
  {
    assert |multiset(a)| == |multiset(b)|;
    if a != [] {
      assert a[0] in multiset(b) && b[0] in multiset(a);
      HeadsAgree(a, b, le);
      DropHead(a, b);
      SortedTail(a, le); SortedTail(b, le);
      SortedIsUnique(a[1..], b[1..], le);
      assert a == [a[0]] + a[1..] && b == [b[0]] + b[1..];
    }
  }

  lemma SortedTail<T>(a: seq<T>, le: (T, T) -> bool)
    requires Sorted(a, le) && a != []
    ensures Sorted(a[1..], le)
  {
    forall i, j | 0 <= i < j < |a[1..]| ensures le(a[1..][i], a[1..][j]) {
      assert le(a[i + 1], a[j + 1]);
    }
  }

  lemma {:induction false} SameSort<T(!new)>(a: seq<T>, b: seq<T>, le: (T, T) -> bool)
    requires TotalPreorder(le) && multiset(a) == multiset(b)
    requires forall x, y | x in a && y in a :: le(x, y) && le(y, x) ==> x == y
    ensures SortBy(a, le) == SortBy(b, le)
  {
    SortIsPermutation(a, le); SortIsPermutation(b, le);
    SortSorts(a, le); SortSorts(b, le);
    SortedIsUnique(SortBy(a, le), SortBy(b, le), le);
  }

  /** The elements the order cannot tell from pivot. */
  function Alike<T>(le: (T, T) -> bool, pivot: T): T -> bool {
    (x: T) => le(x, pivot) && le(pivot, x)
  }

  /** Stability: elements the order cannot tell apart keep their input order. */
  lemma {:induction false} SortIsStable<T(!new)>(s: seq<T>, le: (T, T) -> bool, pivot: T)
    requires TotalPreorder(le)
    ensures Filter(SortBy(s, le), Alike(le, pivot)) == Filter(s, Alike(le, pivot))
  {
    if s != [] {
      SortIsStable(s[1..], le, pivot);
      InsertIsStable(s[0], SortBy(s[1..], le), le, pivot);
    }
  }

  lemma {:induction false} InsertIsStable<T(!new)>(x: T, s: seq<T>, le: (T, T) -> bool, pivot: T)
    requires TotalPreorder(le)
    ensures Filter(Insert(x, s, le), Alike(le, pivot)) ==
            (if Alike(le, pivot)(x) then [x] else []) + Filter(s, Alike(le, pivot))
  {
    if s == [] || le(x, s[0]) {
      FilterCons(x, s, Alike(le, pivot));
    } else {
      InsertIsStable(x, s[1..], le, pivot);
      NotSame(x, s[0], pivot, le);
      FilterCons(s[0], Insert(x, s[1..], le), Alike(le, pivot));
    }
  }

  lemma NotSame<T(!new)>(x: T, y: T, pivot: T, le: (T, T) -> bool)
    requires TotalPreorder(le) && !le(x, y)
    ensures !(le(x, pivot) && le(pivot, x) && le(y, pivot) && le(pivot, y))
  {
  }

  lemma ConcatHead<T>(a: seq<T>, b: seq<T>)
    requires a != []
    ensures (a + b)[0] == a[0] && (a + b)[1..] == a[1..] + b
  {
  }

  lemma EmptyConcat<T>(b: seq<T>)
    ensures [] + b == b && b + [] == b
  {
  }

  lemma Assoc<T>(a: seq<T>, b: seq<T>, c: seq<T>)
    ensures a + (b + c) == (a + b) + c
  {
  }

  lemma {:induction false} FilterConcat<T>(a: seq<T>, b: seq<T>, keep: T -> bool)
    ensures Filter(a + b, keep) == Filter(a, keep) + Filter(b, keep)
  {
    if a == [] {
      EmptyConcat(b); EmptyConcat(Filter(b, keep));
    } else {
      var head := if keep(a[0]) then [a[0]] else [];
      ConcatHead(a, b);
      FilterConcat(a[1..], b, keep);
      Assoc(head, Filter(a[1..], keep), Filter(b, keep));
    }
  }

  /** Taking the first element of a out of a rearrangement b of a. */
  lemma DropFirst<T>(a: seq<T>, b: seq<T>) returns (k: int)
    requires multiset(a) == multiset(b) && a != []
    ensures 0 <= k < |b| && b[k] == a[0]
    ensures multiset(a[1..]) == multiset(b[..k] + b[k + 1..])
    ensures a == [a[0]] + a[1..] && b == b[..k] + ([b[k]] + b[k + 1..])
  {
    k := Position(b, a[0], a);
    RemoveAt(b, k);
    RemoveFirst(a);
  }

  lemma Position<T>(b: seq<T>, x: T, a: seq<T>) returns (k: int)
    requires multiset(a) == multiset(b) && x in a
    ensures 0 <= k < |b| && b[k] == x
  {
    assert x in multiset(b);
    k :| 0 <= k < |b| && b[k] == x;
  }

  lemma RemoveFirst<T>(s: seq<T>)
    requires s != []
    ensures multiset(s[1..]) == multiset(s) - multiset{s[0]} && s == [s[0]] + s[1..]
  {
    RemoveAt(s, 0);
    assert s[..0] + s[1..] == s[1..];
    assert s == [s[0]] + s[1..];
  }

  lemma RemoveAt<T>(s: seq<T>, k: int)
    requires 0 <= k < |s|
    ensures multiset(s[..k] + s[k + 1..]) == multiset(s) - multiset{s[k]}
    ensures s == s[..k] + ([s[k]] + s[k + 1..])
  {
    assert s == s[..k] + ([s[k]] + s[k + 1..]);
  }

  /** How many elements pass a test does not depend on their order. */
  lemma {:induction false} FilterCount<T>(a: seq<T>, b: seq<T>, keep: T -> bool)
    requires multiset(a) == multiset(b)
    ensures |Filter(a, keep)| == |Filter(b, keep)|
  {
    if a == [] {
      assert |multiset(b)| == 0;
    } else {
      var k := DropFirst(a, b);
      FilterCount(a[1..], b[..k] + b[k + 1..], keep);
      FilterConcat(b[..k], [b[k]] + b[k + 1..], keep);
      FilterConcat([b[k]], b[k + 1..], keep);
      FilterConcat(b[..k], b[k + 1..], keep);
    }
  }

  lemma {:induction false} FilterAll<T>(s: seq<T>, keep: T -> bool)
    requires forall x | x in s :: keep(x)
    ensures Filter(s, keep) == s
  {
    if s != [] { FilterAll(s[1..], keep); assert s == [s[0]] + s[1..]; }
  }

  lemma {:induction false} FilterNone<T>(s: seq<T>, keep: T -> bool)
    requires forall x | x in s :: !keep(x)
    ensures Filter(s, keep) == []
  {
    if s != [] { FilterNone(s[1..], keep); }
  }

  lemma FilterCons<T>(x: T, s: seq<T>, keep: T -> bool)
    ensures Filter([x] + s, keep) == (if keep(x) then [x] else []) + Filter(s, keep)
  {
    assert ([x] + s)[0] == x && ([x] + s)[1..] == s;
  }

  /** Filtering twice is filtering by both tests. */
  lemma {:induction false} FilterTwice<T>(s: seq<T>, both: T -> bool, first: T -> bool, second: T -> bool)
    requires forall x | x in s :: both(x) <==> first(x) && second(x)
    ensures Filter(s, both) == Filter(Filter(s, first), second)
  {
    if s != [] {
      FilterTwice(s[1..], both, first, second);
      var t := Filter(s[1..], first);
      FilterCons(s[0], t, second);
      EmptyConcat(t);
    }
  }

  lemma {:induction false} FilterSame<T>(s: seq<T>, p: T -> bool, q: T -> bool)
    requires forall x | x in s :: p(x) <==> q(x)
    ensures Filter(s, p) == Filter(s, q)
  {
    if s != [] { FilterSame(s[1..], p, q); }
  }

  lemma {:induction false} FilterMember<T>(s: seq<T>, keep: T -> bool, x: T)
    ensures x in Filter(s, keep) <==> x in s && keep(x)
  {
    if s != [] {
      FilterMember(s[1..], keep, x);
      assert s == [s[0]] + s[1..];
    }
  }

  lemma CardinalityMonotone<T>(a: set<T>, b: set<T>)
    requires a <= b
    ensures |a| <= |b|
  {
    assert b == a + (b - a);
  }
}
