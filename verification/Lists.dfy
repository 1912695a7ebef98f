/** Lists built by appending one list per element, as a loop that pushes builds them. */
module Lists {
  import opened Text

  /** The state after a loop that takes one step per element. */
  function Fold<S, T>(step: (S, T) -> S, start: S, s: seq<T>): S {
    if s == [] then start else step(Fold(step, start, s[..|s| - 1]), s[|s| - 1])
  }

  lemma FoldStep<S, T>(step: (S, T) -> S, start: S, s: seq<T>, i: nat)
    requires i < |s|
    ensures Fold(step, start, s[..i + 1]) == step(Fold(step, start, s[..i]), s[i])
  {
    FrontOfTake(s, i);
  }

  lemma {:induction false} FoldConcat<S, T>(step: (S, T) -> S, start: S, a: seq<T>, b: seq<T>)
    ensures Fold(step, start, a + b) == Fold(step, Fold(step, start, a), b)
  {
    if b == [] {
      assert a + b == a;
    } else {
      FoldConcat(step, start, a, b[..|b| - 1]);
      assert (a + b)[..|a + b| - 1] == a + b[..|b| - 1];
    }
  }

  lemma FoldOne<S, T>(step: (S, T) -> S, start: S, x: T)
    ensures Fold(step, start, [x]) == step(start, x)
  {
    assert [x][..0] == [];
  }

  function FlatMap<T, U>(f: T -> seq<U>, s: seq<T>): seq<U> {
    if s == [] then [] else FlatMap(f, s[..|s| - 1]) + f(s[|s| - 1])
  }

  lemma FlatMapOne<T, U>(f: T -> seq<U>, x: T)
    ensures FlatMap(f, [x]) == f(x)
  {
    assert [x][..0] == [];
  }

  lemma {:induction false} FlatMapUnchanged<T>(f: T -> seq<T>, s: seq<T>)
    requires forall x :: x in s ==> f(x) == [x]
    ensures FlatMap(f, s) == s
  {
    if s != [] {
      InFrontOrLast(s);
      FlatMapUnchanged(f, s[..|s| - 1]);
      assert s == s[..|s| - 1] + [s[|s| - 1]];
    }
  }

  /** One output for each element. */
  lemma {:induction false} FlatMapOneEach<T, U>(f: T -> seq<U>, s: seq<T>, out: seq<U>)
    requires |s| == |out| && forall i :: 0 <= i < |s| ==> f(s[i]) == [out[i]]
    ensures FlatMap(f, s) == out
  {
    if s != [] {
      FlatMapOneEach(f, s[..|s| - 1], out[..|s| - 1]);
      assert out == out[..|s| - 1] + [out[|s| - 1]];
    }
  }

  /** How many elements fail a test. */
  function Misses<T>(p: T -> bool, s: seq<T>): nat {
    if s == [] then 0 else Misses(p, s[..|s| - 1]) + if p(s[|s| - 1]) then 0 else 1
  }

  lemma {:induction false} NoMisses<T>(p: T -> bool, s: seq<T>)
    ensures Misses(p, s) == 0 <==> forall i :: 0 <= i < |s| ==> p(s[i])
  {
    if s != [] {
      NoMisses(p, s[..|s| - 1]);
      FrontOfTake(s, |s| - 1);
    }
  }

  lemma FlatMapStep<T, U>(f: T -> seq<U>, s: seq<T>, i: nat)
    requires i < |s|
    ensures FlatMap(f, s[..i + 1]) == FlatMap(f, s[..i]) + f(s[i])
  {
    FrontOfTake(s, i);
  }

  lemma {:induction false} FlatMapConcat<T, U>(f: T -> seq<U>, a: seq<T>, b: seq<T>)
    ensures FlatMap(f, a + b) == FlatMap(f, a) + FlatMap(f, b)
  {
    if b == [] {
      assert a + b == a;
    } else {
      var front, last := b[..|b| - 1], b[|b| - 1];
      FlatMapConcat(f, a, front);
      assert (a + b)[..|a + b| - 1] == a + front && (a + b)[|a + b| - 1] == last;
      Associative(FlatMap(f, a), FlatMap(f, front), f(last));
    }
  }

  lemma {:induction false} InFlatMap<T, U>(f: T -> seq<U>, s: seq<T>, u: U)
    ensures u in FlatMap(f, s) <==> exists x :: x in s && u in f(x)
  {
    if s != [] {
      InFlatMap(f, s[..|s| - 1], u);
      InFrontOrLast(s);
    }
  }

  /** The elements do not depend on the order of the list. */
  lemma {:induction false} FlatMapPermuted<T, U>(f: T -> seq<U>, a: seq<T>, b: seq<T>)
    requires multiset(a) == multiset(b)
    ensures multiset(FlatMap(f, a)) == multiset(FlatMap(f, b))
    decreases |a|
  {
    if a == [] {
      assert |multiset(b)| == 0;
    } else {
      var front, last := a[..|a| - 1], a[|a| - 1];
      var i := FoundLast(a, b);
      var b1, b2 := b[..i], b[i + 1..];
      FlatMapPermuted(f, front, b1 + b2);
      FlatMapWithout(f, b1, last, b2);
      assert b == b1 + ([last] + b2);
    }
  }

  /** Where the last element of one list stands in a permutation of it. */
  lemma FoundLast<T>(a: seq<T>, b: seq<T>) returns (i: nat)
    requires a != [] && multiset(a) == multiset(b)
    ensures i < |b| && b[i] == a[|a| - 1]
    ensures multiset(a[..|a| - 1]) == multiset(b[..i] + b[i + 1..])
  {
    var front, last := a[..|a| - 1], a[|a| - 1];
    assert a == front + [last];
    assert last in multiset(b);
    i :| i < |b| && b[i] == last;
    Removed(b, i);
  }

  lemma Removed<T>(s: seq<T>, i: nat)
    requires i < |s|
    ensures s == s[..i] + ([s[i]] + s[i + 1..])
    ensures multiset(s[..i] + s[i + 1..]) == multiset(s) - multiset{s[i]}
  {
    assert s == s[..i] + ([s[i]] + s[i + 1..]);
  }

  lemma FlatMapWithout<T, U>(f: T -> seq<U>, b1: seq<T>, x: T, b2: seq<T>)
    ensures multiset(FlatMap(f, b1 + ([x] + b2))) == multiset(FlatMap(f, b1 + b2)) + multiset(f(x))
  {
    FlatMapConcat(f, b1, [x] + b2);
    FlatMapConcat(f, [x], b2);
    FlatMapConcat(f, b1, b2);
    assert FlatMap(f, [x]) == FlatMap(f, []) + f(x) by {
      assert [x][..0] == [];
    }
  }

  lemma {:induction false} FlatMapCongruent<T(!new), U>(f: T -> seq<U>, g: T -> seq<U>, s: seq<T>)
    requires forall x :: f(x) == g(x)
    ensures FlatMap(f, s) == FlatMap(g, s)
  {
    if s != [] {
      FlatMapCongruent(f, g, s[..|s| - 1]);
    }
  }

  function Filter<T>(p: T -> bool, s: seq<T>): seq<T> {
    if s == [] then [] else Filter(p, s[..|s| - 1]) + if p(s[|s| - 1]) then [s[|s| - 1]] else []
  }

  lemma {:induction false} InFilter<T>(p: T -> bool, s: seq<T>, x: T)
    ensures x in Filter(p, s) <==> x in s && p(x)
  {
    if s != [] {
      InFrontOrLast(s);
      InFilter(p, s[..|s| - 1], x);
    }
  }

  /** Filtering by a weaker test first changes nothing. */
  lemma {:induction false} FilterTwice<T>(p: T -> bool, q: T -> bool, s: seq<T>)
    requires forall x :: x in s && p(x) ==> q(x)
    ensures Filter(p, Filter(q, s)) == Filter(p, s)
  {
    if s != [] {
      var front, last := s[..|s| - 1], s[|s| - 1];
      InFrontOrLast(s);
      FilterTwice(p, q, front);
      var kept := Filter(q, front);
      assert last in s;
      if q(last) {
        assert (kept + [last])[..|kept|] == kept;
      } else {
        assert kept + [] == kept && Filter(p, front) + [] == Filter(p, front);
      }
    }
  }

  lemma {:induction false} FilterAll<T>(p: T -> bool, s: seq<T>)
    requires forall x :: x in s ==> p(x)
    ensures Filter(p, s) == s
  {
    if s != [] {
      InFrontOrLast(s);
      FilterAll(p, s[..|s| - 1]);
      assert s == s[..|s| - 1] + [s[|s| - 1]];
    }
  }

  /** The elements of a list, each once. */
  function Distinct<T(==)>(s: seq<T>): (r: seq<T>)
    ensures (forall x :: x in r ==> x in s) && (forall x :: x in s ==> x in r)
    ensures forall i, j :: 0 <= i < j < |r| ==> r[i] != r[j]
  {
    if s == [] then []
    else
      assert s == s[..|s| - 1] + [s[|s| - 1]];
      var before := Distinct(s[..|s| - 1]);
      if s[|s| - 1] in before then before else before + [s[|s| - 1]]
  }

  /** At most one element is left exactly when all elements are the same. */
  lemma DistinctOne<T>(s: seq<T>)
    ensures |Distinct(s)| <= 1 <==> forall x, y :: x in s && y in s ==> x == y
    ensures |Distinct(s)| == 0 <==> s == []
  {
    var r := Distinct(s);
    if |r| > 1 {
      assert r[0] in s && r[1] in s && r[0] != r[1];
    }
    if s != [] {
      assert s[0] in r;
    }
    if r != [] {
      assert r[0] in s;
    }
  }

  lemma {:induction false} FlatMapMatch<S, T, U>(f: S -> seq<U>, s: seq<S>, g: T -> seq<U>, t: seq<T>)
    requires |s| == |t| && forall i :: 0 <= i < |s| ==> f(s[i]) == g(t[i])
    ensures FlatMap(f, s) == FlatMap(g, t)
  {
    if s != [] {
      FlatMapMatch(f, s[..|s| - 1], g, t[..|t| - 1]);
    }
  }

  lemma {:induction false} FlatMapFilter<T, U>(f: T -> seq<U>, p: T -> bool, g: T -> seq<U>, s: seq<T>)
    requires forall x :: x in s ==> g(x) == if p(x) then f(x) else []
    ensures FlatMap(f, Filter(p, s)) == FlatMap(g, s)
  {
    if s != [] {
      var front, last := s[..|s| - 1], s[|s| - 1];
      InFrontOrLast(s);
      FlatMapFilter(f, p, g, front);
      var kept := Filter(p, front);
      assert last in s;
      if p(last) {
        assert (kept + [last])[..|kept|] == kept;
      } else {
        assert kept + [] == kept && FlatMap(g, front) + [] == FlatMap(g, front);
      }
    }
  }

  /** Whether all elements that say something say the same. */
  ghost predicate Agreeing<T(!new), U>(f: T -> seq<U>, s: seq<T>) {
    forall x, y :: x in s && y in s && f(x) != [] && f(y) != [] ==> f(x) == f(y)
  }

  lemma AllSaidAgree<T(!new), U>(f: T -> seq<U>, s: seq<T>, u: U, v: U)
    requires forall x :: x in s ==> |f(x)| <= 1
    requires Agreeing(f, s) && u in FlatMap(f, s) && v in FlatMap(f, s)
    ensures u == v
  {
    InFlatMap(f, s, u);
    InFlatMap(f, s, v);
    var x :| x in s && u in f(x);
    var y :| y in s && v in f(y);
    assert f(x) == [u] && f(y) == [v];
  }

  /** Where every element says one thing or nothing, one thing at most is said exactly when
      all that say something agree. */
  lemma DistinctAgree<T(!new), U(!new)>(f: T -> seq<U>, s: seq<T>)
    requires forall x :: x in s ==> |f(x)| <= 1
    ensures |Distinct(FlatMap(f, s))| <= 1 <==> Agreeing(f, s)
  {
    var all := FlatMap(f, s);
    DistinctOne(all);
    if |Distinct(all)| <= 1 {
      forall x, y | x in s && y in s && f(x) != [] && f(y) != [] ensures f(x) == f(y) {
        DistinctIs(f, s, x);
        DistinctIs(f, s, y);
      }
    }
    if Agreeing(f, s) {
      forall u, v | u in all && v in all ensures u == v {
        AllSaidAgree(f, s, u, v);
      }
    }
  }

  /** And then it is what any of those says. */
  lemma DistinctIs<T, U>(f: T -> seq<U>, s: seq<T>, x: T)
    requires x in s && |f(x)| == 1 && |Distinct(FlatMap(f, s))| <= 1
    ensures Distinct(FlatMap(f, s)) == f(x)
  {
    var u := f(x)[0];
    assert u in f(x);
    InFlatMap(f, s, u);
    OnlyOne(Distinct(FlatMap(f, s)), u);
    OnlyOne(f(x), u);
  }

  lemma OnlyOne<T>(s: seq<T>, x: T)
    requires |s| <= 1 && x in s
    ensures s == [x]
  {
  }

  lemma {:induction false} FlatMapEmpty<T, U>(f: T -> seq<U>, s: seq<T>)
    ensures FlatMap(f, s) == [] <==> forall x :: x in s ==> f(x) == []
  {
    if s != [] {
      FlatMapEmpty(f, s[..|s| - 1]);
      InFrontOrLast(s);
    }
  }

  // ----- Sums -----

  function Total<T>(f: T -> nat, s: seq<T>): nat {
    if s == [] then 0 else Total(f, s[..|s| - 1]) + f(s[|s| - 1])
  }

  lemma {:induction false} TotalConcat<T>(f: T -> nat, a: seq<T>, b: seq<T>)
    ensures Total(f, a + b) == Total(f, a) + Total(f, b)
  {
    if b == [] {
      assert a + b == a;
    } else {
      TotalConcat(f, a, b[..|b| - 1]);
      assert (a + b)[..|a + b| - 1] == a + b[..|b| - 1];
    }
  }

  lemma TotalOne<T>(f: T -> nat, x: T)
    ensures Total(f, [x]) == f(x)
  {
    assert [x][..0] == [];
  }

  /** Lists that each weigh no more than what they are made from. */
  lemma {:induction false} TotalOfFlatMap<T, U>(f: T -> seq<U>, weight: U -> nat, bound: T -> nat, s: seq<T>)
    requires forall x :: x in s ==> Total(weight, f(x)) <= bound(x)
    ensures Total(weight, FlatMap(f, s)) <= Total(bound, s)
  {
    if s != [] {
      var front, last := s[..|s| - 1], s[|s| - 1];
      InFrontOrLast(s);
      assert last in s;
      TotalOfFlatMap(f, weight, bound, front);
      TotalConcat(weight, FlatMap(f, front), f(last));
    }
  }

  lemma {:induction false} TotalAtMost<T>(f: T -> nat, g: T -> nat, s: seq<T>)
    requires forall x :: x in s ==> f(x) <= g(x)
    ensures Total(f, s) <= Total(g, s)
  {
    if s != [] {
      InFrontOrLast(s);
      assert s[|s| - 1] in s;
      TotalAtMost(f, g, s[..|s| - 1]);
    }
  }

  /** Sums that do not differ, of terms of which none exceeds its fellow. */
  lemma {:induction false} SameTotal<T>(f: T -> nat, g: T -> nat, s: seq<T>)
    requires forall x :: x in s ==> f(x) <= g(x)
    requires Total(g, s) <= Total(f, s)
    ensures forall x :: x in s ==> f(x) == g(x)
  {
    if s != [] {
      InFrontOrLast(s);
      assert s[|s| - 1] in s;
      TotalAtMost(f, g, s[..|s| - 1]);
      SameTotal(f, g, s[..|s| - 1]);
    }
  }
}
