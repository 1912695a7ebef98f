/** Two relationship fields joined into one, as crates/core/src/debdep.rs joins Pre-Depends
    to Depends: exactly when the joined text lists what the two do. */
module FieldJoins {
  import opened DependencyFields
  import opened Text

  // ----- A separator between two texts -----

  lemma PiecesCons(c: char, t: string, sep: char, depth: int)
    ensures Pieces([c] + t, sep, depth)
         == if IsCut(c, sep, depth) then [""] + Pieces(t, sep, depth) else Glue([c], Pieces(t, sep, depth + Delta(c)))
    ensures Depth([c] + t) == Delta(c) + Depth(t)
  {
    assert ([c] + t)[1..] == t;
  }

  /** One character in front of two texts of which the second is cut off. */
  lemma ConsAround(c: char, t: string, rest: string, sep: char, depth: int, tail: seq<string>)
    requires Pieces(t + rest, sep, depth + Delta(c)) == Pieces(t, sep, depth + Delta(c)) + tail
    ensures Pieces([c] + (t + rest), sep, depth) == Pieces([c] + t, sep, depth) + tail
  {
    PiecesCons(c, t, sep, depth);
    PiecesCons(c, t + rest, sep, depth);
    Associative([""], Pieces(t, sep, depth), tail);
    GlueConcat([c], Pieces(t, sep, depth + Delta(c)), tail);
  }

  /** A separator at a depth that is not positive cuts what stands before it off. */
  lemma {:induction false} PiecesAround(a: string, b: string, sep: char, depth: int)
    requires Delta(sep) == 0 && depth + Depth(a) <= 0
    ensures Pieces(a + ([sep] + b), sep, depth) == Pieces(a, sep, depth) + Pieces(b, sep, depth + Depth(a))
  {
    if a == "" {
      assert a + ([sep] + b) == [sep] + b;
      PiecesCons(sep, b, sep, depth);
    } else {
      var c, t := a[0], a[1..];
      PiecesAround(t, b, sep, depth + Delta(c));
      ConsAround(c, t, [sep] + b, sep, depth, Pieces(b, sep, depth + Depth(a)));
      assert a == [c] + t;
      Associative([c], t, [sep] + b);
    }
  }

  lemma GlueConcat(head: string, pieces: seq<string>, more: seq<string>)
    requires pieces != []
    ensures Glue(head, pieces + more) == Glue(head, pieces) + more
  {
    FrontOfConcat(pieces, more);
  }

  lemma KeptOneAfterSpace(piece: string)
    ensures KeptOne(" " + piece) == KeptOne(piece)
  {
    assert (" " + piece)[1..] == piece;
  }

  lemma KeptAfterSpace(pieces: seq<string>)
    requires pieces != []
    ensures Kept(Glue(" ", pieces)) == Kept(pieces)
  {
    var glued := Glue(" ", pieces);
    assert glued[0] == " " + pieces[0] && glued[1..] == pieces[1..];
    KeptOneAfterSpace(pieces[0]);
  }

  lemma PiecesAfterSpace(s: string, depth: int)
    ensures Pieces(" " + s, ',', depth) == Glue(" ", Pieces(s, ',', depth))
  {
    assert (" " + s)[1..] == s && (" " + s)[0] == ' ';
  }

  lemma Regrouped(a: string, b: string)
    ensures a + ", " + b == a + ([','] + (" " + b))
  {
  }

  lemma JoinedPieces(a: string, b: string)
    requires Depth(a) <= 0
    ensures Pieces(a + ([','] + (" " + b)), ',', 0) == Pieces(a, ',', 0) + Glue(" ", Pieces(b, ',', Depth(a)))
  {
    PiecesAround(a, " " + b, ',', 0);
    PiecesAfterSpace(b, Depth(a));
  }

  lemma KeptJoined(a: seq<string>, b: seq<string>)
    requires b != []
    ensures Kept(a + Glue(" ", b)) == Kept(a) + Kept(b)
  {
    KeptConcat(a, Glue(" ", b));
    KeptAfterSpace(b);
  }

  // ----- Exactly when two fields read as one -----

  /** How many separators cut, read from a depth. */
  function Cuts(s: string, sep: char, depth: int): nat {
    if s == "" then 0 else (if IsCut(s[0], sep, depth) then 1 else 0) + Cuts(s[1..], sep, depth + Delta(s[0]))
  }

  function Count(s: string, c: char): nat {
    if s == "" then 0 else (if s[0] == c then 1 else 0) + Count(s[1..], c)
  }

  function CountAll(pieces: seq<string>, c: char): nat {
    if pieces == [] then 0 else Count(pieces[0], c) + CountAll(pieces[1..], c)
  }

  lemma {:induction false} CountConcat(a: string, b: string, c: char)
    ensures Count(a + b, c) == Count(a, c) + Count(b, c)
  {
    if a == "" {
      assert a + b == b;
    } else {
      FrontOfConcat(a, b);
      CountConcat(a[1..], b, c);
    }
  }

  lemma {:induction false} CountAllConcat(a: seq<string>, b: seq<string>, c: char)
    ensures CountAll(a + b, c) == CountAll(a, c) + CountAll(b, c)
  {
    if a == [] {
      assert a + b == b;
    } else {
      FrontOfConcat(a, b);
      CountAllConcat(a[1..], b, c);
    }
  }

  lemma {:induction false} CutsConcat(a: string, b: string, sep: char, depth: int)
    ensures Cuts(a + b, sep, depth) == Cuts(a, sep, depth) + Cuts(b, sep, depth + Depth(a))
  {
    if a == "" {
      assert a + b == b;
    } else {
      FrontOfConcat(a, b);
      CutsConcat(a[1..], b, sep, depth + Delta(a[0]));
    }
  }

  lemma CountGlue(c: char, pieces: seq<string>, x: char)
    requires pieces != []
    ensures CountAll(Glue([c], pieces), x) == (if c == x then 1 else 0) + CountAll(pieces, x)
  {
    var glued := Glue([c], pieces);
    assert glued[0] == [c] + pieces[0] && glued[1..] == pieces[1..];
    FrontOfConcat([c], pieces[0]);
    assert [c][1..] + pieces[0] == pieces[0];
  }

  /** Every separator cuts or stays in a piece. */
  lemma {:induction false} PiecesCount(s: string, sep: char, depth: int)
    ensures CountAll(Pieces(s, sep, depth), sep) + Cuts(s, sep, depth) == Count(s, sep)
  {
    if s == "" {
      assert [""][1..] == [];
    } else {
      var rest := Pieces(s[1..], sep, depth + Delta(s[0]));
      PiecesCount(s[1..], sep, depth + Delta(s[0]));
      CountGlue(s[0], rest, sep);
      assert ([""] + rest)[1..] == rest;
    }
  }

  lemma {:induction false} TrimStartCount(s: string, c: char)
    requires !IsSpace(c)
    ensures Count(TrimStart(s), c) == Count(s, c)
  {
    if s != "" && IsSpace(s[0]) {
      TrimStartCount(s[1..], c);
    }
  }

  lemma {:induction false} TrimEndCount(s: string, c: char)
    requires !IsSpace(c)
    ensures Count(TrimEnd(s), c) == Count(s, c)
  {
    if s != "" && IsSpace(s[|s| - 1]) {
      var front, last := s[..|s| - 1], s[|s| - 1];
      TrimEndCount(front, c);
      assert s == front + [last];
      CountConcat(front, [last], c);
      assert [last][1..] == "";
    }
  }

  lemma KeptOneCount(piece: string, c: char)
    requires !IsSpace(c)
    ensures CountAll(KeptOne(piece), c) == Count(piece, c)
  {
    TrimStartCount(piece, c);
    TrimEndCount(TrimStart(piece), c);
    assert CountAll([Trim(piece)], c) == Count(Trim(piece), c) by {
      assert [Trim(piece)][1..] == [];
    }
  }

  lemma {:induction false} KeptCount(pieces: seq<string>, c: char)
    requires !IsSpace(c)
    ensures CountAll(Kept(pieces), c) == CountAll(pieces, c)
  {
    if pieces != [] {
      KeptCount(pieces[1..], c);
      KeptOneCount(pieces[0], c);
      CountAllConcat(KeptOne(pieces[0]), Kept(pieces[1..]), c);
    }
  }

  /** A separator that cuts when read from `low` and not when read from `high`. */
  predicate Exposed(s: string, sep: char, low: int, high: int) {
    exists i :: 0 <= i < |s| && s[i] == sep && Depth(s[..i]) + low <= 0 < Depth(s[..i]) + high
  }

  lemma ExposedStep(s: string, sep: char, low: int, high: int)
    requires s != ""
    ensures Exposed(s, sep, low, high)
       <==> (s[0] == sep && low <= 0 < high) || Exposed(s[1..], sep, low + Delta(s[0]), high + Delta(s[0]))
  {
    var (c, t) := (s[0], s[1..]);
    forall i | 0 < i < |s| ensures s[i] == t[i - 1] && Depth(s[..i]) == Delta(c) + Depth(t[..i - 1]) {
      assert s[..i][1..] == t[..i - 1];
    }
    assert s[..0] == "";
    if i :| 0 <= i < |t| && t[i] == sep && Depth(t[..i]) + low + Delta(c) <= 0 < Depth(t[..i]) + high + Delta(c) {
      assert s[i + 1] == sep && Depth(s[..i + 1]) == Delta(c) + Depth(t[..i]);
    }
    if i :| 0 <= i < |s| && s[i] == sep && Depth(s[..i]) + low <= 0 < Depth(s[..i]) + high {
      if i > 0 {
        assert t[i - 1] == sep;
      }
    }
  }

  /** Reading from deeper cuts no more; it cuts the same, into the same pieces, exactly when
      no separator is exposed between the depths. */
  lemma {:induction false} DeeperCutsLess(s: string, sep: char, low: int, high: int)
    requires Delta(sep) == 0 && low <= high
    ensures Cuts(s, sep, high) <= Cuts(s, sep, low)
    ensures Cuts(s, sep, high) == Cuts(s, sep, low) <==> !Exposed(s, sep, low, high)
    ensures !Exposed(s, sep, low, high) ==> Pieces(s, sep, low) == Pieces(s, sep, high)
  {
    if s != "" {
      ExposedStep(s, sep, low, high);
      DeeperCutsLess(s[1..], sep, low + Delta(s[0]), high + Delta(s[0]));
    }
  }

  lemma SplitCount(s: string, sep: char)
    requires !IsSpace(sep)
    ensures CountAll(SplitTop(s, sep), sep) + Cuts(s, sep, 0) == Count(s, sep)
  {
    PiecesCount(s, sep, 0);
    KeptCount(Pieces(s, sep, 0), sep);
  }

  lemma CommaCounts(b: string)
    ensures Count([','] + (" " + b), ',') == 1 + Count(b, ',')
    ensures forall depth: int :: depth > 0 ==> Cuts([','] + (" " + b), ',', depth) == Cuts(b, ',', depth)
  {
    var s := [','] + (" " + b);
    assert s[0] == ',' && s[1..] == " " + b && (" " + b)[0] == ' ' && (" " + b)[1..] == b;
  }

  lemma JoinedCount(a: string, b: string)
    requires Depth(a) > 0
    ensures CountAll(SplitTop(a + ", " + b, ','), ',') + Cuts(a, ',', 0) + Cuts(b, ',', Depth(a)) == Count(a, ',') + 1 + Count(b, ',')
  {
    var rest := [','] + (" " + b);
    Regrouped(a, b);
    SplitCount(a + rest, ',');
    CountConcat(a, rest, ',');
    CutsConcat(a, rest, ',', 0);
    CommaCounts(b);
  }

  lemma ApartCount(a: string, b: string)
    ensures CountAll(SplitTop(a, ',') + SplitTop(b, ','), ',') + Cuts(a, ',', 0) + Cuts(b, ',', 0) == Count(a, ',') + Count(b, ',')
  {
    SplitCount(a, ',');
    SplitCount(b, ',');
    CountAllConcat(SplitTop(a, ','), SplitTop(b, ','), ',');
  }

  /** Behind an open bracket the comma does not cut, and the fields run together. */
  lemma OpenBracketHides(a: string, b: string)
    requires Depth(a) > 0
    ensures SplitTop(a + ", " + b, ',') != SplitTop(a, ',') + SplitTop(b, ',')
  {
    var joined, apart := SplitTop(a + ", " + b, ','), SplitTop(a, ',') + SplitTop(b, ',');
    assert CountAll(joined, ',') > CountAll(apart, ',') by {
      JoinedCount(a, b);
      ApartCount(a, b);
      MoreCut(b, Depth(a));
    }
  }

  lemma MoreCut(b: string, depth: int)
    requires 0 < depth
    ensures Cuts(b, ',', depth) <= Cuts(b, ',', 0)
  {
    DeeperCutsLess(b, ',', 0, depth);
  }

  lemma SameKept(b: string, depth: int)
    requires depth <= 0
    ensures Kept(Pieces(b, ',', depth)) == SplitTop(b, ',') <==> !Exposed(b, ',', depth, 0)
  {
    DeeperCutsLess(b, ',', depth, 0);
    PiecesCount(b, ',', depth);
    KeptCount(Pieces(b, ',', depth), ',');
    SplitCount(b, ',');
  }

  /** Joining two fields with a comma joins what they list exactly when the first opens no
      bracket it does not close, and no comma of the second stands within as many brackets
      as the first closes too many. */
  lemma JoinedFieldsRead(a: string, b: string)
    ensures SplitTop(a + ", " + b, ',') == SplitTop(a, ',') + SplitTop(b, ',')
       <==> Depth(a) <= 0 && !Exposed(b, ',', Depth(a), 0)
  {
    if Depth(a) > 0 {
      OpenBracketHides(a, b);
    } else {
      Regrouped(a, b);
      JoinedPieces(a, b);
      KeptJoined(Pieces(a, ',', 0), Pieces(b, ',', Depth(a)));
      SameKept(b, Depth(a));
      SameRest(SplitTop(a, ','), Kept(Pieces(b, ',', Depth(a))), SplitTop(b, ','));
    }
  }

  lemma SameRest(a: seq<string>, x: seq<string>, y: seq<string>)
    ensures a + x == a + y <==> x == y
  {
    Prefix(a, x);
    Prefix(a, y);
  }

  lemma DepthOfTwo(a: string)
    requires |a| == 2
    ensures Depth(a) == Delta(a[0]) + Delta(a[1])
  {
    var t := a[1..];
    assert t[1..] == "";
    assert Depth(t) == Delta(t[0]) + Depth(t[1..]);
  }

  /** A first field that closes one bracket too many exposes the comma in `(b,c)`. */
  lemma ClosedTooOftenExposes(a: string, b: string)
    requires a == "a)" && b == "(b,c)"
    ensures Depth(a) == -1 && Exposed(b, ',', -1, 0)
    ensures SplitTop(a + ", " + b, ',') != SplitTop(a, ',') + SplitTop(b, ',')
  {
    DepthOfTwo(a);
    DepthOfTwo(b[..2]);
    assert b[2] == ',';
    JoinedFieldsRead(a, b);
  }
}
