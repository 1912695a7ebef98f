/** Saying something about every name two lists carry, in the order of the names, as the
    comparisons of crates/core/src/diff.rs do. */
module NameWalks {
  import opened Lists
  import opened Orders
  import opened Sorting
  import opened Wrappers

  ghost predicate Ascending(s: seq<string>) {
    forall i, j :: 0 <= i < j < |s| ==> CompareStrings(s[i], s[j]) == Less
  }

  /** `Vec::dedup`: one of every run of equal neighbours. */
  function Dedup(s: seq<string>): seq<string> {
    if |s| <= 1 then s
    else if s[0] == s[1] then Dedup(s[1..])
    else [s[0]] + Dedup(s[1..])
  }

  /** The names of a list sorted, each once: what iterating a `BTreeMap` keyed by them
      visits. */
  function InOrder(names: seq<string>): seq<string> {
    Dedup(Sort(CompareStrings, names))
  }

  lemma StringOrder()
    ensures TotalPreorder(CompareStrings)
  {
    forall x, y ensures CompareStrings(y, x) == CompareStrings(x, y).Flip() {
      CompareStringsTotal(x, y);
    }
    forall x, y, z ensures Chained(CompareStrings(x, y), CompareStrings(y, z), CompareStrings(x, z)) {
      CompareStringsChained(x, y, z);
    }
  }

  lemma {:induction false} DedupAscends(s: seq<string>)
    requires Sorted(CompareStrings, s)
    ensures Ascending(Dedup(s))
    ensures forall x :: x in Dedup(s) <==> x in s
  {
    if |s| >= 2 {
      var rest := s[1..];
      assert s == [s[0]] + rest;
      DedupAscends(rest);
      if s[0] != s[1] {
        forall j | 0 <= j < |Dedup(rest)| ensures CompareStrings(s[0], Dedup(rest)[j]) == Less {
          var y := Dedup(rest)[j];
          assert y in rest;
          var k :| 0 <= k < |rest| && rest[k] == y;
          CompareStringsTotal(s[0], s[1]);
          CompareStringsTotal(s[1], y);
          CompareStringsChained(s[0], s[1], y);
        }
      }
    }
  }

  lemma InOrderMeans(names: seq<string>)
    ensures Ascending(InOrder(names))
    ensures forall x :: x in InOrder(names) <==> x in names
  {
    StringOrder();
    SortSorted(CompareStrings, names);
    DedupAscends(Sort(CompareStrings, names));
    forall x ensures x in Sort(CompareStrings, names) <==> x in names {
      InMultiset(x, names);
      InMultiset(x, Sort(CompareStrings, names));
    }
  }

  lemma LastIsGreatest(t: seq<string>, x: string)
    requires Ascending(t) && x in t
    ensures x == t[|t| - 1] || CompareStrings(x, t[|t| - 1]) == Less
  {
  }

  lemma FrontAscends(t: seq<string>)
    requires Ascending(t) && t != []
    ensures Ascending(t[..|t| - 1])
    ensures forall x :: x in t[..|t| - 1] <==> x in t && x != t[|t| - 1]
  {
    var front := t[..|t| - 1];
    assert t == front + [t[|t| - 1]];
    CompareStringsTotal(t[|t| - 1], t[|t| - 1]);
    assert t[|t| - 1] !in front;
  }

  /** A list in order is its last name and the names below it: equal last names in a list
      and a list that holds it. */
  lemma SameLast(s: seq<string>, t: seq<string>)
    requires Ascending(s) && Ascending(t) && t != []
    requires forall x :: x in s ==> x in t
    requires t[|t| - 1] in s
    ensures s != [] && s[|s| - 1] == t[|t| - 1]
  {
    var (x, y) := (s[|s| - 1], t[|t| - 1]);
    assert x in s;
    LastIsGreatest(s, y);
    LastIsGreatest(t, x);
    CompareStringsTotal(x, y);
  }

  lemma EmptyOrMember(s: seq<string>)
    ensures s == [] || exists x :: x in s
  {
    if s != [] {
      assert s[0] in s;
    }
  }

  lemma {:induction false} AscendingUnique(s: seq<string>, t: seq<string>)
    requires Ascending(s) && Ascending(t)
    requires forall x :: x in s <==> x in t
    ensures s == t
  {
    if t == [] {
      EmptyOrMember(s);
    } else {
      assert t[|t| - 1] in t;
      SameLast(s, t);
      var (a, b) := (s[..|s| - 1], t[..|t| - 1]);
      FrontAscends(s);
      FrontAscends(t);
      forall x ensures x in a <==> x in b {
        assert x in s <==> x in t;
      }
      AscendingUnique(a, b);
      assert s == s[..|s| - 1] + [s[|s| - 1]] && t == t[..|t| - 1] + [t[|t| - 1]];
    }
  }

  /** Only the names something is said of matter. */
  lemma {:induction false} FlatMapWithin<U>(f: string -> seq<U>, s: seq<string>, t: seq<string>)
    requires Ascending(s) && Ascending(t)
    requires forall x :: x in s ==> x in t
    requires forall x :: x in t && x !in s ==> f(x) == []
    ensures FlatMap(f, s) == FlatMap(f, t)
  {
    if t == [] {
      EmptyOrMember(s);
    } else {
      var y := t[|t| - 1];
      assert y in t;
      FrontAscends(t);
      if y in s {
        SameLast(s, t);
        FrontAscends(s);
        var (a, b) := (s[..|s| - 1], t[..|t| - 1]);
        forall x | x in a ensures x in b {
          assert x in s;
        }
        forall x | x in b && x !in a ensures f(x) == [] {
          assert x in t && x !in s;
        }
        FlatMapWithin(f, a, b);
      } else {
        FlatMapWithin(f, s, t[..|t| - 1]);
      }
    }
  }

  /** What is said of every name of either list, in order. */
  function Across<U>(f: string -> seq<U>, l: seq<string>, r: seq<string>): seq<U> {
    FlatMap(f, InOrder(l + r))
  }

  lemma AcrossHolds<U>(f: string -> seq<U>, l: seq<string>, r: seq<string>, u: U)
    ensures u in Across(f, l, r) <==> exists x :: (x in l || x in r) && u in f(x)
  {
    InFlatMap(f, InOrder(l + r), u);
    InOrderMeans(l + r);
  }

  lemma AcrossNothing<U>(f: string -> seq<U>, l: seq<string>, r: seq<string>)
    ensures Across(f, l, r) == [] <==> forall x :: x in l || x in r ==> f(x) == []
  {
    FlatMapEmpty(f, InOrder(l + r));
    InOrderMeans(l + r);
  }

  /** The same, where nothing is said of a name neither list carries. */
  lemma AcrossSilent<U>(f: string -> seq<U>, l: seq<string>, r: seq<string>)
    requires forall x :: x !in l && x !in r ==> f(x) == []
    ensures Across(f, l, r) == [] <==> forall x :: f(x) == []
  {
    AcrossNothing(f, l, r);
  }

  function Mapped<T, U>(f: T -> U, s: seq<T>): (r: seq<U>)
    ensures |r| == |s|
    ensures forall i :: 0 <= i < |s| ==> r[i] == f(s[i])
  {
    seq(|s|, i requires 0 <= i < |s| => f(s[i]))
  }

  lemma {:induction false} FlatMapMapped<U, V>(g: U -> V, f: string -> seq<U>, h: string -> seq<V>, s: seq<string>)
    requires forall x :: h(x) == Mapped(g, f(x))
    ensures FlatMap(h, s) == Mapped(g, FlatMap(f, s))
  {
    if s != [] {
      FlatMapMapped(g, f, h, s[..|s| - 1]);
    }
  }

  /** Asking about the other direction of every name, over the lists swapped. */
  lemma AcrossMirrored<U, V>(g: U -> V, f: string -> seq<U>, h: string -> seq<V>, l: seq<string>, r: seq<string>)
    requires forall x :: h(x) == Mapped(g, f(x))
    ensures Across(h, r, l) == Mapped(g, Across(f, l, r))
  {
    InOrderMeans(l + r);
    InOrderMeans(r + l);
    AscendingUnique(InOrder(r + l), InOrder(l + r));
    FlatMapMapped(g, f, h, InOrder(l + r));
  }

  /** Where every name gets at most one line, carrying it, the lines ascend by name. */
  lemma {:induction false} LinesAscend<U>(f: string -> seq<U>, name: U -> string, s: seq<string>)
    requires Ascending(s)
    requires forall x :: |f(x)| <= 1
    requires forall x :: forall u :: u in f(x) ==> name(u) == x
    ensures Ascending(Mapped(name, FlatMap(f, s)))
    ensures forall u :: u in FlatMap(f, s) ==> name(u) in s
  {
    if s != [] {
      var front, last := s[..|s| - 1], s[|s| - 1];
      FrontAscends(s);
      LinesAscend(f, name, front);
      var before := FlatMap(f, front);
      assert FlatMap(f, s) == before + f(last);
      forall i | 0 <= i < |before| ensures CompareStrings(name(before[i]), last) == Less {
        assert before[i] in before;
        LastIsGreatest(s, name(before[i]));
      }
      if f(last) != [] {
        assert f(last)[0] in f(last);
      }
    }
  }

  /** The first element that carries a name. */
  function First<T>(axis: T -> string, s: seq<T>, name: string): Option<T> {
    if s == [] then None else if axis(s[0]) == name then Some(s[0]) else First(axis, s[1..], name)
  }

  lemma {:induction false} FirstConcat<T>(name: T -> string, a: seq<T>, b: seq<T>, x: string)
    ensures First(name, a + b, x) == First(name, a, x).Or(First(name, b, x))
  {
    if a == [] {
      assert a + b == b;
    } else {
      assert (a + b)[0] == a[0] && (a + b)[1..] == a[1..] + b;
      FirstConcat(name, a[1..], b, x);
    }
  }

  /** Where every name gets at most one line, carrying it, a name's line is the one found. */
  lemma {:induction false} FirstLine<U(!new)>(f: string -> seq<U>, name: U -> string, s: seq<string>, x: string)
    requires forall y :: |f(y)| <= 1
    requires forall y :: forall u :: u in f(y) ==> name(u) == y
    ensures First(name, FlatMap(f, s), x) == if x in s && f(x) != [] then Some(f(x)[0]) else None
  {
    if s != [] {
      var front, last := s[..|s| - 1], s[|s| - 1];
      FirstLine(f, name, front, x);
      FirstConcat(name, FlatMap(f, front), f(last), x);
      assert s == front + [last];
      OwnLine(f, name, last, x);
    }
  }

  lemma OwnLine<U(!new)>(f: string -> seq<U>, name: U -> string, y: string, x: string)
    requires |f(y)| <= 1 && forall u :: u in f(y) ==> name(u) == y
    ensures First(name, f(y), x) == if x == y && f(y) != [] then Some(f(y)[0]) else None
  {
    if f(y) != [] {
      assert f(y)[0] in f(y) && f(y)[1..] == [];
    }
  }

  lemma FirstAcross<U(!new)>(f: string -> seq<U>, name: U -> string, l: seq<string>, r: seq<string>, x: string)
    requires forall y :: |f(y)| <= 1
    requires forall y :: forall u :: u in f(y) ==> name(u) == y
    requires f(x) != [] ==> x in l || x in r
    ensures First(name, Across(f, l, r), x) == if f(x) != [] then Some(f(x)[0]) else None
  {
    FirstLine(f, name, InOrder(l + r), x);
    InOrderMeans(l + r);
  }
}
