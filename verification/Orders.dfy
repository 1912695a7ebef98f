/** Three-way comparison, and the orders every other module sorts or compares by. */
module Orders {

  /** Rust's `std::cmp::Ordering`. */
  datatype Ordering = Less | Equal | Greater {

    /** The answer with the two operands swapped. */
    function Flip(): Ordering {
      match this
      case Less => Greater
      case Equal => Equal
      case Greater => Less
    }

    /** This answer, or `next` when this one is a tie. */
    function Then(next: Ordering): Ordering {
      if this == Equal then next else this
    }
  }

  /** What comparing x with y, y with z and x with z may answer together in a total
      preorder: ties are interchangeable, and two comparisons the same way compose. */
  predicate Chained(xy: Ordering, yz: Ordering, xz: Ordering) {
    && (xy == Equal ==> xz == yz)
    && (yz == Equal ==> xz == xy)
    && (xy == yz ==> xz == xy)
  }

  /** Comparing by a first criterion and then by a second keeps the law, if the ties of
      the first are what the second is asked about. */
  lemma ThenChained(xy: Ordering, yz: Ordering, xz: Ordering, xy': Ordering, yz': Ordering, xz': Ordering)
    requires Chained(xy, yz, xz)
    requires xy == yz == xz == Equal ==> Chained(xy', yz', xz')
    ensures Chained(xy.Then(xy'), yz.Then(yz'), xz.Then(xz'))
  {
  }

  function CompareInt(a: int, b: int): Ordering {
    if a < b then Less else if a == b then Equal else Greater
  }

  /** Rust's `str` order, which on code points is the order of the bytes too. */
  function CompareStrings(a: string, b: string): Ordering {
    if a == "" then (if b == "" then Equal else Less)
    else if b == "" then Greater
    else CompareInt(a[0] as int, b[0] as int).Then(CompareStrings(a[1..], b[1..]))
  }

  lemma {:induction false} CompareStringsTotal(a: string, b: string)
    ensures CompareStrings(b, a) == CompareStrings(a, b).Flip()
    ensures CompareStrings(a, b) == Equal <==> a == b
  {
    if a != "" && b != "" {
      CompareStringsTotal(a[1..], b[1..]);
      assert a == [a[0]] + a[1..] && b == [b[0]] + b[1..];
    }
  }

  lemma {:induction false} CompareStringsChained(a: string, b: string, c: string)
    ensures Chained(CompareStrings(a, b), CompareStrings(b, c), CompareStrings(a, c))
  {
    if a != "" && b != "" && c != "" {
      CompareStringsChained(a[1..], b[1..], c[1..]);
    }
  }

  /** Strings that start with equally long heads compare by the heads, then the rest. */
  lemma {:induction false} CompareConcat(a: string, x: string, b: string, y: string)
    requires |a| == |b|
    ensures CompareStrings(a + x, b + y) == CompareStrings(a, b).Then(CompareStrings(x, y))
  {
    if a == "" {
      assert a + x == x && b + y == y;
    } else {
      CompareConcat(a[1..], x, b[1..], y);
      assert (a + x)[1..] == a[1..] + x && (b + y)[1..] == b[1..] + y;
    }
  }
}
