/** The name-suggestion distance of crates/core/src/error.rs: a two-row table, against
    the recursive distance and against counting single-character edits. */
module Suggestions {
  import opened Lists
  import opened Orders
  import opened Sorting
  import opened Text

  function Min(a: nat, b: nat): nat {
    if a < b then a else b
  }

  function Init(s: string): (r: string)
    requires s != ""
    ensures |r| == |s| - 1
  {
    s[..|s| - 1]
  }

  function Last(s: string): char
    requires s != ""
  {
    s[|s| - 1]
  }

  /** Levenshtein's recurrence on the last characters. */
  function Distance(a: string, b: string): nat
    decreases |a| + |b|
  {
    if a == "" then |b|
    else if b == "" then |a|
    else Min(
        Min(Distance(Init(a), b) + 1, Distance(a, Init(b)) + 1),
        Distance(Init(a), Init(b)) + if Last(a) == Last(b) then 0 else 1)
  }

  // ----- The table -----

  /** Row after row, `prev[i]` being the distance of `a[..i]` from the part of `b` read
      so far; the rows are overwritten and swapped, never reallocated. */
  method EditDistance(a: string, b: string) returns (d: nat)
    ensures d == Distance(a, b)
  {
    var prev := new nat[|a| + 1](i => i);
    var cur := new nat[|a| + 1](i => 0);
    for j := 0 to |b|
      invariant prev.Length == cur.Length == |a| + 1 && prev != cur && fresh(prev) && fresh(cur)
      invariant IsRow(a, b[..j], prev[..])
    {
      FillRow(a, b, j, prev, cur);
      prev, cur := cur, prev;
    }
    assert a[..|a|] == a && b[..|b|] == b;
    return prev[|a|];
  }

  /** `row[i]` is the distance of the first i characters of `a` from `b`. */
  predicate IsRow(a: string, b: string, row: seq<nat>) {
    |row| == |a| + 1 && forall i :: 0 <= i <= |a| ==> row[i] == Distance(a[..i], b)
  }

  /** The body of the outer loop: the row for one more character of `b`. */
  method FillRow(a: string, b: string, j: nat, prev: array<nat>, cur: array<nat>)
    requires j < |b| && cur.Length == |a| + 1 && prev != cur && IsRow(a, b[..j], prev[..])
    modifies cur
    ensures IsRow(a, b[..j + 1], cur[..])
  {
    ghost var row := prev[..];
    cur[0] := j + 1;
    for i := 0 to |a|
      invariant prev[..] == row
      invariant forall k :: 0 <= k <= i ==> cur[k] == Distance(a[..k], b[..j + 1])
    {
      var cost := if a[i] != b[j] then 1 else 0;
      var cell := Min(Min(prev[i + 1] + 1, cur[i] + 1), prev[i] + cost);
      assert prev[i] == row[i] && prev[i + 1] == row[i + 1];
      CellFilled(a, b, i, j, row, cur[i], cell);
      cur[i + 1] := cell;
    }
  }

  /** One cell from the row before and the cell to the left. */
  lemma CellFilled(a: string, b: string, i: nat, j: nat, row: seq<nat>, left: nat, cell: nat)
    requires i < |a| && j < |b| && IsRow(a, b[..j], row) && left == Distance(a[..i], b[..j + 1])
    requires cell == Min(Min(row[i + 1] + 1, left + 1), row[i] + if a[i] != b[j] then 1 else 0)
    ensures cell == Distance(a[..i + 1], b[..j + 1])
  {
    DistanceCell(a, b, i, j);
  }

  lemma DistanceCell(a: string, b: string, i: nat, j: nat)
    requires i < |a| && j < |b|
    ensures Distance(a[..i + 1], b[..j + 1]) == Min(
        Min(Distance(a[..i + 1], b[..j]) + 1, Distance(a[..i], b[..j + 1]) + 1),
        Distance(a[..i], b[..j]) + if a[i] == b[j] then 0 else 1)
  {
    assert Init(a[..i + 1]) == a[..i] && Init(b[..j + 1]) == b[..j];
  }

  // ----- A metric -----

  lemma {:induction false} DistanceBounds(a: string, b: string)
    ensures |a| - |b| <= Distance(a, b) && |b| - |a| <= Distance(a, b)
    ensures Distance(a, b) <= if |a| < |b| then |b| else |a|
    decreases |a| + |b|
  {
    if a != "" && b != "" {
      DistanceBounds(Init(a), b);
      DistanceBounds(a, Init(b));
      DistanceBounds(Init(a), Init(b));
    }
  }

  lemma {:induction false} DistanceSymmetric(a: string, b: string)
    ensures Distance(a, b) == Distance(b, a)
    decreases |a| + |b|
  {
    if a != "" && b != "" {
      DistanceSymmetric(Init(a), b);
      DistanceSymmetric(a, Init(b));
      DistanceSymmetric(Init(a), Init(b));
    }
  }

  lemma {:induction false} DistanceZero(a: string, b: string)
    ensures Distance(a, b) == 0 <==> a == b
    decreases |a| + |b|
  {
    if a != "" && b != "" {
      DistanceZero(Init(a), Init(b));
      assert a == Init(a) + [Last(a)] && b == Init(b) + [Last(b)];
    }
  }

  /** Which of the three choices of the recurrence attains the minimum. */
  datatype Step = Delete | Insert | Replace

  function BestStep(a: string, b: string): (s: Step)
    requires a != "" && b != ""
    ensures s == Delete ==> Distance(a, b) == Distance(Init(a), b) + 1
    ensures s == Insert ==> Distance(a, b) == Distance(a, Init(b)) + 1
    ensures s == Replace ==>
      Distance(a, b) == Distance(Init(a), Init(b)) + if Last(a) == Last(b) then 0 else 1
  {
    if Distance(a, b) == Distance(Init(a), b) + 1 then Delete
    else if Distance(a, b) == Distance(a, Init(b)) + 1 then Insert
    else Replace
  }

  lemma {:induction false} TriangleInequality(a: string, b: string, c: string)
    ensures Distance(a, c) <= Distance(a, b) + Distance(b, c)
    decreases |a| + |b| + |c|
  {
    if a == "" || c == "" {
      DistanceBounds(a, b);
      DistanceBounds(b, c);
    } else if b == "" {
      DistanceBounds(a, c);
    } else {
      var ab, bc := BestStep(a, b), BestStep(b, c);
      if ab == Delete {
        TriangleInequality(Init(a), b, c);
      } else if bc == Insert {
        TriangleInequality(a, b, Init(c));
      } else if ab == Insert && bc == Delete {
        TriangleInequality(a, Init(b), c);
      } else if ab == Insert {
        TriangleInequality(a, Init(b), Init(c));
      } else if bc == Delete {
        TriangleInequality(Init(a), Init(b), c);
      } else {
        TriangleInequality(Init(a), Init(b), Init(c));
      }
    }
  }

  // ----- Counting edits -----

  /** `t` is `s` with one character inserted, deleted or replaced. */
  ghost predicate OneEdit(s: string, t: string) {
    || (exists i :: 0 <= i < |s| && t == Without(s, i))
    || (exists i :: 0 <= i < |t| && s == Without(t, i))
    || (|s| == |t| && exists i :: 0 <= i < |s| && Without(s, i) == Without(t, i))
  }

  function Without(s: string, i: nat): (r: string)
    requires i < |s|
    ensures |r| == |s| - 1
  {
    s[..i] + s[i + 1..]
  }

  /** A chain of strings from `a` to `b`, each one edit from the one before it. */
  ghost predicate EditChain(chain: seq<string>, a: string, b: string) {
    && chain != [] && chain[0] == a && chain[|chain| - 1] == b
    && forall k :: 0 <= k < |chain| - 1 ==> OneEdit(chain[k], chain[k + 1])
  }

  /** Appending a common suffix brings two strings no further apart. */
  lemma {:induction false} CommonSuffix(a: string, b: string, s: string)
    ensures Distance(a + s, b + s) <= Distance(a, b)
    decreases |s|
  {
    if s == "" {
      assert a + s == a && b + s == b;
    } else {
      CommonSuffix(a, b, Init(s));
      assert Init(a + s) == a + Init(s) && Init(b + s) == b + Init(s);
    }
  }

  lemma InitIsNear(s: string)
    requires s != ""
    ensures Distance(s, Init(s)) <= 1
  {
    DistanceZero(Init(s), Init(s));
  }

  lemma WithoutIsNear(s: string, i: nat)
    requires i < |s|
    ensures Distance(s, Without(s, i)) <= 1
  {
    AroundHead(s, i);
    NearBefore(s[..i + 1], s[i + 1..]);
  }

  lemma AroundHead(s: string, i: nat)
    requires i < |s|
    ensures s == s[..i + 1] + s[i + 1..] && Without(s, i) == Init(s[..i + 1]) + s[i + 1..]
  {
  }

  lemma NearBefore(head: string, tail: string)
    requires head != ""
    ensures Distance(head + tail, Init(head) + tail) <= 1
  {
    InitIsNear(head);
    CommonSuffix(head, Init(head), tail);
  }

  lemma OneEditIsNear(s: string, t: string)
    requires OneEdit(s, t)
    ensures Distance(s, t) <= 1
  {
    if i :| 0 <= i < |s| && t == Without(s, i) {
      WithoutIsNear(s, i);
    } else if i :| 0 <= i < |t| && s == Without(t, i) {
      WithoutIsNear(t, i);
      DistanceSymmetric(s, t);
    } else {
      var i :| 0 <= i < |s| && |s| == |t| && Without(s, i) == Without(t, i);
      SameWithout(s, t, i);
      var (hs, ht) := (s[..i + 1], t[..i + 1]);
      assert Init(hs) == s[..i] && Init(ht) == t[..i];
      DistanceZero(s[..i], t[..i]);
      assert Distance(hs, ht) <= 1;
      assert s == hs + s[i + 1..] && t == ht + t[i + 1..];
      CommonSuffix(hs, ht, s[i + 1..]);
    }
  }

  lemma SameWithout(s: string, t: string, i: nat)
    requires i < |s| == |t| && Without(s, i) == Without(t, i)
    ensures s[..i] == t[..i] && s[i + 1..] == t[i + 1..]
  {
    assert Without(s, i)[..i] == s[..i] && Without(t, i)[..i] == t[..i];
    assert Without(s, i)[i..] == s[i + 1..] && Without(t, i)[i..] == t[i + 1..];
  }

  /** No chain of edits is shorter than the distance. */
  lemma {:induction false} ChainIsNoShorter(chain: seq<string>, a: string, b: string)
    requires EditChain(chain, a, b)
    ensures Distance(a, b) <= |chain| - 1
    decreases |chain|
  {
    if |chain| == 1 {
      DistanceZero(a, b);
    } else {
      ChainIsNoShorter(chain[1..], chain[1], b);
      OneEditIsNear(a, chain[1]);
      TriangleInequality(a, chain[1], b);
    }
  }

  /** One more edit in front of a chain. */
  lemma Prepend(s: string, chain: seq<string>, a: string, b: string)
    requires EditChain(chain, a, b) && OneEdit(s, a)
    ensures EditChain([s] + chain, s, b)
  {
    forall k | 0 <= k < |chain| ensures OneEdit(([s] + chain)[k], ([s] + chain)[k + 1]) {
      if k > 0 {
        assert OneEdit(chain[k - 1], chain[k]);
      }
    }
  }

  lemma Append(chain: seq<string>, a: string, b: string, t: string)
    requires EditChain(chain, a, b) && OneEdit(b, t)
    ensures EditChain(chain + [t], a, t)
  {
  }

  function WithSuffix(chain: seq<string>, c: char): (r: seq<string>)
    ensures |r| == |chain|
    ensures forall k :: 0 <= k < |chain| ==> r[k] == chain[k] + [c]
  {
    seq(|chain|, k requires 0 <= k < |chain| => chain[k] + [c])
  }

  lemma WithoutBefore(s: string, i: nat, c: char)
    requires i < |s|
    ensures Without(s + [c], i) == Without(s, i) + [c]
  {
    assert (s + [c])[..i] == s[..i] && (s + [c])[i + 1..] == s[i + 1..] + [c];
    Associative(s[..i], s[i + 1..], [c]);
  }

  lemma OneEditWithSuffix(s: string, t: string, c: char)
    requires OneEdit(s, t)
    ensures OneEdit(s + [c], t + [c])
  {
    if i :| 0 <= i < |s| && t == Without(s, i) {
      WithoutBefore(s, i, c);
    } else if i :| 0 <= i < |t| && s == Without(t, i) {
      WithoutBefore(t, i, c);
    } else {
      var i :| 0 <= i < |s| && |s| == |t| && Without(s, i) == Without(t, i);
      WithoutBefore(s, i, c);
      WithoutBefore(t, i, c);
    }
  }

  lemma ChainWithSuffix(chain: seq<string>, a: string, b: string, c: char)
    requires EditChain(chain, a, b)
    ensures EditChain(WithSuffix(chain, c), a + [c], b + [c])
  {
    var r := WithSuffix(chain, c);
    forall k | 0 <= k < |chain| - 1 ensures OneEdit(r[k], r[k + 1]) {
      OneEditWithSuffix(chain[k], chain[k + 1], c);
    }
  }

  lemma DropLastIsEdit(s: string)
    requires s != ""
    ensures OneEdit(s, Init(s)) && OneEdit(Init(s), s)
  {
    assert Init(s) == Without(s, |s| - 1);
  }

  /** Some chain of edits is exactly as long as the distance. */
  lemma {:induction false} ChainOfDistance(a: string, b: string) returns (chain: seq<string>)
    ensures EditChain(chain, a, b) && |chain| - 1 == Distance(a, b)
    decreases |a| + |b|
  {
    if a == "" && b == "" {
      chain := [a];
    } else if b == "" || (a != "" && BestStep(a, b) == Delete) {
      var rest := ChainOfDistance(Init(a), b);
      DropLastIsEdit(a);
      Prepend(a, rest, Init(a), b);
      chain := [a] + rest;
    } else if a == "" || BestStep(a, b) == Insert {
      var rest := ChainOfDistance(a, Init(b));
      DropLastIsEdit(b);
      Append(rest, a, Init(b), b);
      chain := rest + [b];
    } else {
      var rest := ChainOfDistance(Init(a), Init(b));
      chain := ChainThroughReplace(a, b, rest);
    }
  }

  lemma ChainThroughReplace(a: string, b: string, rest: seq<string>) returns (chain: seq<string>)
    requires a != "" && b != "" && EditChain(rest, Init(a), Init(b))
    ensures EditChain(chain, a, b) && |chain| == |rest| + if Last(a) == Last(b) then 0 else 1
  {
    ChainWithSuffix(rest, Init(a), Init(b), Last(a));
    chain := WithSuffix(rest, Last(a));
    assert Init(a) + [Last(a)] == a && Init(b) + [Last(b)] == b;
    if Last(a) != Last(b) {
      ReplaceLastIsEdit(b, Last(a));
      Append(chain, a, Init(b) + [Last(a)], b);
      chain := chain + [b];
    }
  }

  lemma ReplaceLastIsEdit(s: string, c: char)
    requires s != ""
    ensures OneEdit(Init(s) + [c], s)
  {
    assert Without(Init(s) + [c], |s| - 1) == Init(s) == Without(s, |s| - 1);
  }

  /** The distance is the least number of single-character edits between two strings. */
  lemma DistanceIsFewestEdits(a: string, b: string)
    ensures exists chain :: EditChain(chain, a, b) && |chain| - 1 == Distance(a, b)
    ensures forall chain :: EditChain(chain, a, b) ==> Distance(a, b) <= |chain| - 1
  {
    var best := ChainOfDistance(a, b);
    forall chain | EditChain(chain, a, b) ensures Distance(a, b) <= |chain| - 1 {
      ChainIsNoShorter(chain, a, b);
    }
  }

  // ----- What is suggested -----

  function Budget(name: string): nat {
    if |name| <= 4 then 1 else if |name| <= 9 then 2 else 3
  }

  /** A candidate and how far it is; containment ranks ahead of any edit. */
  datatype Scored = Scored(score: nat, name: string)

  predicate IsNear(name: string, c: string) {
    c != name && (Contains(c, name) || Contains(name, c) || Distance(name, c) <= Budget(name))
  }

  function Score(name: string, c: string): nat {
    if Contains(c, name) || Contains(name, c) then 0 else Distance(name, c)
  }

  function ScoredNames(name: string): string -> seq<Scored> {
    c => if IsNear(name, c) then [Scored(Score(name, c), c)] else []
  }

  function CompareScored(a: Scored, b: Scored): Ordering {
    CompareInt(a.score, b.score).Then(CompareStrings(a.name, b.name))
  }

  function Ranked(name: string, candidates: seq<string>): seq<Scored> {
    Sort(CompareScored, FlatMap(ScoredNames(name), candidates))
  }

  function FirstThree(ranked: seq<Scored>): seq<Scored> {
    if |ranked| <= 3 then ranked else ranked[..3]
  }

  function Suggested(name: string, candidates: seq<string>): seq<string> {
    var top := FirstThree(Ranked(name, candidates));
    seq(|top|, i requires 0 <= i < |top| => top[i].name)
  }

  /** Filter and score, sort, take three. */
  method SimilarNames(name: string, candidates: seq<string>) returns (names: seq<string>)
    ensures names == Suggested(name, candidates)
  {
    var scored: seq<Scored> := [];
    for i := 0 to |candidates|
      invariant scored == FlatMap(ScoredNames(name), candidates[..i])
    {
      FlatMapStep(ScoredNames(name), candidates, i);
      var c := candidates[i];
      if c != name {
        if Contains(c, name) || Contains(name, c) {
          scored := scored + [Scored(0, c)];
        } else {
          var d := EditDistance(name, c);
          if d <= Budget(name) {
            scored := scored + [Scored(d, c)];
          }
        }
      }
    }
    assert candidates[..|candidates|] == candidates;
    var top := FirstThree(Sort(CompareScored, scored));
    names := seq(|top|, i requires 0 <= i < |top| => top[i].name);
  }

  lemma ScoredOrder()
    ensures TotalPreorder(CompareScored)
  {
    forall x, y ensures CompareScored(y, x) == CompareScored(x, y).Flip() {
      CompareStringsTotal(x.name, y.name);
    }
    forall x, y, z ensures Chained(CompareScored(x, y), CompareScored(y, z), CompareScored(x, z)) {
      CompareStringsChained(x.name, y.name, z.name);
      ThenChained(CompareInt(x.score, y.score), CompareInt(y.score, z.score), CompareInt(x.score, z.score),
                  CompareStrings(x.name, y.name), CompareStrings(y.name, z.name), CompareStrings(x.name, z.name));
    }
  }

  lemma InRanked(name: string, candidates: seq<string>, x: Scored)
    ensures x in Ranked(name, candidates) <==> x.name in candidates && IsNear(name, x.name) && x.score == Score(name, x.name)
  {
    var all := FlatMap(ScoredNames(name), candidates);
    InMultiset(x, all);
    InMultiset(x, Ranked(name, candidates));
    InFlatMap(ScoredNames(name), candidates, x);
    if x.name in candidates && IsNear(name, x.name) && x.score == Score(name, x.name) {
      assert x in ScoredNames(name)(x.name);
    }
  }

  /** What is suggested is near and never the name itself, at most three, best first; and a
      near candidate is left out only behind three that rank no worse. */
  lemma SuggestionsAreTheBest(name: string, candidates: seq<string>)
    ensures var top := FirstThree(Ranked(name, candidates));
            && |top| <= 3
            && Sorted(CompareScored, top)
            && (forall x :: x in top ==> x.name in candidates && IsNear(name, x.name) && x.score == Score(name, x.name))
            && (forall c :: c in candidates && IsNear(name, c) && Scored(Score(name, c), c) !in top ==>
                  |top| == 3 && forall x :: x in top ==> CompareScored(x, Scored(Score(name, c), c)) != Greater)
  {
    var ranked := Ranked(name, candidates);
    var top := FirstThree(ranked);
    ScoredOrder();
    SortSorted(CompareScored, FlatMap(ScoredNames(name), candidates));
    forall x | x in top ensures x.name in candidates && IsNear(name, x.name) && x.score == Score(name, x.name) {
      assert x in ranked;
      InRanked(name, candidates, x);
    }
    forall c | c in candidates && IsNear(name, c) && Scored(Score(name, c), c) !in top
      ensures |top| == 3 && forall x :: x in top ==> CompareScored(x, Scored(Score(name, c), c)) != Greater
    {
      LeftOutBehind(name, candidates, c);
    }
  }

  lemma InFirstThree(ranked: seq<Scored>, k: nat)
    requires k < |ranked|
    ensures k < 3 ==> ranked[k] in FirstThree(ranked)
  {
    var top := FirstThree(ranked);
    assert k < 3 ==> top[k] == ranked[k];
  }

  lemma LeftOutBehind(name: string, candidates: seq<string>, c: string)
    requires c in candidates && IsNear(name, c) && Scored(Score(name, c), c) !in FirstThree(Ranked(name, candidates))
    ensures |FirstThree(Ranked(name, candidates))| == 3
    ensures forall x :: x in FirstThree(Ranked(name, candidates)) ==> CompareScored(x, Scored(Score(name, c), c)) != Greater
  {
    var ranked, one := Ranked(name, candidates), Scored(Score(name, c), c);
    ScoredOrder();
    SortSorted(CompareScored, FlatMap(ScoredNames(name), candidates));
    InRanked(name, candidates, one);
    BehindFirstThree(ranked, one);
  }

  lemma BehindFirstThree(ranked: seq<Scored>, one: Scored)
    requires Sorted(CompareScored, ranked) && one in ranked && one !in FirstThree(ranked)
    ensures |FirstThree(ranked)| == 3
    ensures forall x :: x in FirstThree(ranked) ==> CompareScored(x, one) != Greater
  {
    var k :| 0 <= k < |ranked| && ranked[k] == one;
    InFirstThree(ranked, k);
    forall x | x in ranked[..3] ensures CompareScored(x, one) != Greater {
      var i :| 0 <= i < 3 && ranked[..3][i] == x;
      assert ranked[i] == x;
    }
  }

  // ----- What that means to who reads them -----

  predicate Related(name: string, c: string) {
    Contains(c, name) || Contains(name, c)
  }

  /** A candidate worth showing: another name that holds this one or is held by it, or that
      one edit makes of a name of up to four characters, two of up to nine, or three. */
  predicate Worth(name: string, c: string) {
    && c != name
    && (|| Related(name, c) || Distance(name, c) <= 1
        || (|name| >= 5 && Distance(name, c) <= 2) || (|name| >= 10 && Distance(name, c) <= 3))
  }

  /** Related names come before edited ones, fewer edits before more, and then by name. */
  predicate Before(name: string, c: string, d: string) {
    if Related(name, c) != Related(name, d) then Related(name, c)
    else if !Related(name, c) && Distance(name, c) != Distance(name, d) then Distance(name, c) < Distance(name, d)
    else CompareStrings(c, d) == Less
  }

  lemma NearIsWorth(name: string, c: string)
    ensures IsNear(name, c) <==> Worth(name, c)
  {
  }

  /** Among names worth showing the scores order what `Before` does. */
  lemma ScoresRank(name: string, c: string, d: string)
    requires Worth(name, c) && Worth(name, d)
    ensures CompareScored(Scored(Score(name, c), c), Scored(Score(name, d), d)) == Less <==> Before(name, c, d)
    ensures CompareScored(Scored(Score(name, c), c), Scored(Score(name, d), d)) == Equal <==> c == d
  {
    DistanceZero(name, c);
    DistanceZero(name, d);
    CompareStringsTotal(c, d);
  }

  /** At most three candidates are shown. Each is worth it, they come in order, and another
      one worth it is left out only behind three that come before it. */
  lemma BestNamesFirst(name: string, candidates: seq<string>)
    ensures var names := Suggested(name, candidates);
            && |names| <= 3
            && (forall c :: c in names ==> c in candidates && Worth(name, c))
            && (forall i, j :: 0 <= i < j < |names| ==> names[i] == names[j] || Before(name, names[i], names[j]))
            && (forall c :: c in candidates && Worth(name, c) && c !in names ==>
                  |names| == 3 && forall d :: d in names ==> Before(name, d, c))
  {
    var top, names := FirstThree(Ranked(name, candidates)), Suggested(name, candidates);
    SuggestionsAreTheBest(name, candidates);
    forall i | 0 <= i < |names| ensures top[i] == Scored(Score(name, names[i]), names[i]) && names[i] in candidates && Worth(name, names[i]) {
      assert top[i] in top;
      NearIsWorth(name, names[i]);
    }
    forall i, j | 0 <= i < j < |names| ensures names[i] == names[j] || Before(name, names[i], names[j]) {
      ScoresRank(name, names[i], names[j]);
    }
    forall c, d | c in candidates && Worth(name, c) && c !in names && d in names ensures |names| == 3 && Before(name, d, c) {
      NearIsWorth(name, c);
      var i :| 0 <= i < |names| && names[i] == d;
      assert top[i] in top;
      ScoresRank(name, d, c);
    }
    forall c | c in candidates && Worth(name, c) && c !in names ensures |names| == 3 {
      NearIsWorth(name, c);
    }
  }
}
