/** Rust's stable `sort_by` as a function, and why its result is the only one there is. */
module Sorting {
  import opened Orders

  /** A comparison whose answers fit together: `sort_by`'s own requirement. */
  ghost predicate TotalPreorder<T(!new)>(cmp: (T, T) -> Ordering) {
    && (forall x, y :: cmp(y, x) == cmp(x, y).Flip())
    && (forall x, y, z :: Chained(cmp(x, y), cmp(y, z), cmp(x, z)))
  }

  ghost predicate Sorted<T>(cmp: (T, T) -> Ordering, s: seq<T>) {
    forall i, j :: 0 <= i < j < |s| ==> cmp(s[i], s[j]) != Greater
  }

  /** Insert `x` before everything that does not sort below it. */
  function Insert<T>(cmp: (T, T) -> Ordering, x: T, s: seq<T>): (r: seq<T>)
    ensures multiset(r) == multiset{x} + multiset(s)
  {
    if s == [] || cmp(x, s[0]) != Greater then [x] + s
    else
      assert s == [s[0]] + s[1..];
      [s[0]] + Insert(cmp, x, s[1..])
  }

  /** The stable sort of `s`. */
  function Sort<T>(cmp: (T, T) -> Ordering, s: seq<T>): (r: seq<T>)
    ensures multiset(r) == multiset(s)
    ensures |r| == |s|
  {
    if s == [] then []
    else
      assert s == [s[0]] + s[1..];
      var r := Insert(cmp, s[0], Sort(cmp, s[1..]));
      assert |multiset(r)| == |multiset(s)|;
      r
  }

  lemma InMultiset<T>(x: T, s: seq<T>)
    ensures x in multiset(s) <==> x in s
  {
  }

  lemma {:induction false} InsertSorted<T(!new)>(cmp: (T, T) -> Ordering, x: T, s: seq<T>)
    requires TotalPreorder(cmp) && Sorted(cmp, s)
    ensures Sorted(cmp, Insert(cmp, x, s))
  {
    if s == [] {
    } else if cmp(x, s[0]) != Greater {
      forall j | 0 <= j < |s| ensures cmp(x, s[j]) != Greater {
        assert Chained(cmp(x, s[0]), cmp(s[0], s[j]), cmp(x, s[j]));
      }
    } else {
      var rest := Insert(cmp, x, s[1..]);
      InsertSorted(cmp, x, s[1..]);
      assert cmp(s[0], x) == Less;
      forall j | 0 <= j < |rest| ensures cmp(s[0], rest[j]) != Greater {
        InMultiset(rest[j], rest);
        InMultiset(rest[j], s[1..]);
      }
    }
  }

  lemma {:induction false} SortSorted<T(!new)>(cmp: (T, T) -> Ordering, s: seq<T>)
    requires TotalPreorder(cmp)
    ensures Sorted(cmp, Sort(cmp, s))
  {
    if s != [] {
      SortSorted(cmp, s[1..]);
      InsertSorted(cmp, s[0], Sort(cmp, s[1..]));
    }
  }

  /** The elements of `s` that tie with `x`, in order. */
  function Ties<T>(cmp: (T, T) -> Ordering, x: T, s: seq<T>): seq<T> {
    if s == [] then []
    else if cmp(x, s[0]) == Equal then [s[0]] + Ties(cmp, x, s[1..])
    else Ties(cmp, x, s[1..])
  }

  lemma {:induction false} InsertStable<T(!new)>(cmp: (T, T) -> Ordering, k: T, x: T, s: seq<T>)
    requires TotalPreorder(cmp)
    ensures Ties(cmp, k, Insert(cmp, x, s)) == Ties(cmp, k, [x] + s)
  {
    if s == [] || cmp(x, s[0]) != Greater {
    } else {
      InsertStable(cmp, k, x, s[1..]);
      var (h, rest) := (s[0], s[1..]);
      assert ([h] + Insert(cmp, x, rest))[1..] == Insert(cmp, x, rest);
      assert ([x] + rest)[1..] == rest && ([x] + s)[1..] == s;
      assert Chained(cmp(k, x), cmp(x, h), cmp(k, h));
      assert !(cmp(k, x) == Equal && cmp(k, h) == Equal);
    }
  }

  /** Sorting keeps the ties of every element in their order. */
  lemma {:induction false} SortStable<T(!new)>(cmp: (T, T) -> Ordering, k: T, s: seq<T>)
    requires TotalPreorder(cmp)
    ensures Ties(cmp, k, Sort(cmp, s)) == Ties(cmp, k, s)
  {
    if s != [] {
      SortStable(cmp, k, s[1..]);
      InsertStable(cmp, k, s[0], Sort(cmp, s[1..]));
      var t := Sort(cmp, s[1..]);
      assert ([s[0]] + t)[1..] == t;
    }
  }

  lemma {:induction false} TiesOf<T(!new)>(cmp: (T, T) -> Ordering, k: T, s: seq<T>)
    ensures forall x :: x in Ties(cmp, k, s) <==> x in s && cmp(k, x) == Equal
  {
    if s != [] {
      TiesOf(cmp, k, s[1..]);
      assert s == [s[0]] + s[1..];
    }
  }

  /** Two sorted lists with the same ties for every element are the same list. */
  lemma {:induction false} SortedByTies<T(!new)>(cmp: (T, T) -> Ordering, s: seq<T>, t: seq<T>)
    requires TotalPreorder(cmp) && Sorted(cmp, s) && Sorted(cmp, t)
    requires forall k :: Ties(cmp, k, s) == Ties(cmp, k, t)
    ensures s == t
  {
    if s == [] || t == [] {
      if s != [] {
        HeadTies(cmp, s);
      }
      if t != [] {
        HeadTies(cmp, t);
      }
    } else {
      SameHead(cmp, s, t);
      forall k ensures Ties(cmp, k, s[1..]) == Ties(cmp, k, t[1..]) {
        assert Ties(cmp, k, s) == Ties(cmp, k, t);
        assert cmp(k, s[0]) == Equal ==> Ties(cmp, k, s)[1..] == Ties(cmp, k, s[1..]);
        assert cmp(k, t[0]) == Equal ==> Ties(cmp, k, t)[1..] == Ties(cmp, k, t[1..]);
      }
      SortedByTies(cmp, s[1..], t[1..]);
      assert s == [s[0]] + s[1..] && t == [t[0]] + t[1..];
    }
  }

  lemma HeadTies<T(!new)>(cmp: (T, T) -> Ordering, s: seq<T>)
    requires TotalPreorder(cmp) && s != []
    ensures Ties(cmp, s[0], s) != []
  {
    assert cmp(s[0], s[0]) == Equal;
  }

  lemma SameHead<T(!new)>(cmp: (T, T) -> Ordering, s: seq<T>, t: seq<T>)
    requires TotalPreorder(cmp) && Sorted(cmp, s) && Sorted(cmp, t) && s != [] && t != []
    requires forall k :: Ties(cmp, k, s) == Ties(cmp, k, t)
    ensures s[0] == t[0]
  {
    var (x, y) := (s[0], t[0]);
    assert cmp(x, x) == Equal && cmp(y, y) == Equal;
    assert Ties(cmp, x, s)[0] == x && Ties(cmp, y, t)[0] == y;
    TiesOf(cmp, x, t);
    TiesOf(cmp, y, s);
    assert x in Ties(cmp, x, s) && y in Ties(cmp, y, t);
    assert Ties(cmp, x, s) == Ties(cmp, x, t) && Ties(cmp, y, s) == Ties(cmp, y, t);
    assert x in t && y in s;
    assert cmp(x, y) != Greater && cmp(y, x) != Greater;
    assert cmp(x, y) == Equal;
  }

  /** Two sorted lists of the same elements are the same list, if only equals tie. */
  lemma {:induction false} SortedUnique<T(!new)>(cmp: (T, T) -> Ordering, s: seq<T>, t: seq<T>)
    requires TotalPreorder(cmp) && Sorted(cmp, s) && Sorted(cmp, t) && multiset(s) == multiset(t)
    requires forall x, y :: x in s && y in s && cmp(x, y) == Equal ==> x == y
    ensures s == t
  {
    if s == [] {
      assert |multiset(t)| == 0;
    } else {
      assert |multiset(s)| == |multiset(t)| == |t|;
      SameLeast(cmp, s, t);
      RestOf(s);
      RestOf(t);
      RestSorted(cmp, s);
      RestSorted(cmp, t);
      SortedUnique(cmp, s[1..], t[1..]);
    }
  }

  lemma RestSorted<T(!new)>(cmp: (T, T) -> Ordering, s: seq<T>)
    requires Sorted(cmp, s) && s != []
    ensures Sorted(cmp, s[1..]) && forall x :: x in s[1..] ==> x in s
  {
  }

  lemma SameLeast<T(!new)>(cmp: (T, T) -> Ordering, s: seq<T>, t: seq<T>)
    requires TotalPreorder(cmp) && Sorted(cmp, s) && Sorted(cmp, t) && multiset(s) == multiset(t) && s != [] && t != []
    requires forall x, y :: x in s && y in s && cmp(x, y) == Equal ==> x == y
    ensures s[0] == t[0]
  {
    var (x, y) := (s[0], t[0]);
    InMultiset(x, s);
    InMultiset(x, t);
    InMultiset(y, t);
    InMultiset(y, s);
    LeastIsFirst(cmp, t, x);
    LeastIsFirst(cmp, s, y);
    assert cmp(x, y) == Equal;
  }

  lemma LeastIsFirst<T(!new)>(cmp: (T, T) -> Ordering, s: seq<T>, x: T)
    requires TotalPreorder(cmp) && Sorted(cmp, s) && x in s
    ensures cmp(s[0], x) != Greater
  {
    var i :| 0 <= i < |s| && s[i] == x;
    assert cmp(x, x) == Equal;
  }

  lemma RestOf<T>(s: seq<T>)
    requires s != []
    ensures multiset(s[1..]) == multiset(s) - multiset{s[0]}
    ensures s == [s[0]] + s[1..]
  {
    assert s == [s[0]] + s[1..];
  }
}
