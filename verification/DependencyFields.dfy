/** Reading a Debian relationship field (sections 7.1 and 7.5 of Debian Policy) as
    crates/core/src/debdep.rs does, and printing one it reads back. */
module DependencyFields {
  import opened Text
  import opened Wrappers

  // ----- Splitting outside brackets -----

  /** What a character does to the bracket depth. */
  function Delta(c: char): int {
    if c == '(' || c == '[' then 1 else if c == ')' || c == ']' then -1 else 0
  }

  function Depth(s: string): int {
    if s == "" then 0 else Delta(s[0]) + Depth(s[1..])
  }

  predicate IsCut(c: char, sep: char, depth: int) {
    Delta(c) == 0 && c == sep && depth <= 0
  }

  /** `head` in front of the first of `pieces`. */
  function Glue(head: string, pieces: seq<string>): seq<string>
    requires pieces != []
  {
    [head + pieces[0]] + pieces[1..]
  }

  /** The pieces of `s` between separators outside brackets, read from depth `depth`. */
  function Pieces(s: string, sep: char, depth: int): (r: seq<string>)
    ensures r != []
  {
    if s == "" then [""]
    else if IsCut(s[0], sep, depth) then [""] + Pieces(s[1..], sep, depth)
    else Glue([s[0]], Pieces(s[1..], sep, depth + Delta(s[0])))
  }

  /** Each piece trimmed, and the empty ones dropped. */
  function Kept(pieces: seq<string>): seq<string> {
    if pieces == [] then [] else KeptOne(pieces[0]) + Kept(pieces[1..])
  }

  function KeptOne(piece: string): seq<string> {
    if Trim(piece) == "" then [] else [Trim(piece)]
  }

  function SplitTop(s: string, sep: char): seq<string> {
    Kept(Pieces(s, sep, 0))
  }

  lemma {:induction false} KeptConcat(a: seq<string>, b: seq<string>)
    ensures Kept(a + b) == Kept(a) + Kept(b)
  {
    if a == [] {
      assert a + b == b;
    } else {
      KeptConcat(a[1..], b);
      FrontOfConcat(a, b);
      Associative(KeptOne(a[0]), Kept(a[1..]), Kept(b));
    }
  }

  /** Gluing the empty head, a head in front of a cut, and one more character. */
  lemma GlueFacts(head: string, c: char, pieces: seq<string>)
    requires pieces != []
    ensures Glue("", pieces) == pieces
    ensures Glue(head, [""] + pieces) == [head] + pieces
    ensures Glue(head, Glue([c], pieces)) == Glue(head + [c], pieces)
  {
    assert "" + pieces[0] == pieces[0] && [pieces[0]] + pieces[1..] == pieces;
    assert head + "" == head && ([""] + pieces)[1..] == pieces;
    assert head + ([c] + pieces[0]) == head + [c] + pieces[0];
  }

  /** What is left to read of `s` at index `i`, the current piece starting at `start`. */
  function Unread(s: string, sep: char, depth: int, start: nat, i: nat): seq<string>
    requires start <= i <= |s|
  {
    Glue(s[start..i], Pieces(s[i..], sep, depth))
  }

  lemma UnreadStep(s: string, sep: char, depth: int, start: nat, i: nat)
    requires start <= i < |s|
    ensures !IsCut(s[i], sep, depth) ==>
      Unread(s, sep, depth, start, i) == Unread(s, sep, depth + Delta(s[i]), start, i + 1)
    ensures IsCut(s[i], sep, depth) ==>
      Unread(s, sep, depth, start, i) == [s[start..i]] + Unread(s, sep, depth, i + 1, i + 1)
  {
    var rest := Pieces(s[i + 1..], sep, depth + Delta(s[i]));
    assert s[i..][1..] == s[i + 1..] && s[i..][0] == s[i];
    assert s[start..i] + [s[i]] == s[start..i + 1];
    assert s[i + 1..i + 1] == "";
    GlueFacts(s[start..i], s[i], rest);
  }

  lemma UnreadEnds(s: string, sep: char, depth: int, start: nat)
    requires start <= |s|
    ensures Unread(s, sep, 0, 0, 0) == Pieces(s, sep, 0)
    ensures Unread(s, sep, depth, start, |s|) == [s[start..]]
  {
    assert s[0..] == s && s[0..0] == "";
    GlueFacts("", ' ', Pieces(s, sep, 0));
    assert s[|s|..] == "" && s[start..|s|] + "" == s[start..];
  }

  /** What the loop knows at index `i`. */
  ghost predicate Splitting(s: string, sep: char, depth: int, start: nat, i: nat, pieces: seq<string>) {
    start <= i <= |s| && Pieces(s, sep, 0) == pieces + Unread(s, sep, depth, start, i)
  }

  lemma SplittingGoesOn(s: string, sep: char, depth: int, start: nat, i: nat, pieces: seq<string>)
    requires Splitting(s, sep, depth, start, i, pieces) && i < |s| && !IsCut(s[i], sep, depth)
    ensures Splitting(s, sep, depth + Delta(s[i]), start, i + 1, pieces)
  {
    UnreadStep(s, sep, depth, start, i);
  }

  lemma SplittingCuts(s: string, sep: char, depth: int, start: nat, i: nat, pieces: seq<string>)
    requires Splitting(s, sep, depth, start, i, pieces) && i < |s| && IsCut(s[i], sep, depth)
    ensures Splitting(s, sep, depth, i + 1, i + 1, pieces + [s[start..i]])
  {
    UnreadStep(s, sep, depth, start, i);
    Associative(pieces, [s[start..i]], Unread(s, sep, depth, i + 1, i + 1));
  }

  lemma SplittingEnds(s: string, sep: char, depth: int, start: nat, pieces: seq<string>)
    requires Splitting(s, sep, depth, start, |s|, pieces)
    ensures Kept(pieces + [s[start..]]) == SplitTop(s, sep)
  {
    UnreadEnds(s, sep, depth, start);
  }

  lemma SplittingStarts(s: string, sep: char)
    ensures Splitting(s, sep, 0, 0, 0, [])
  {
    UnreadEnds(s, sep, 0, 0);
    assert [] + Pieces(s, sep, 0) == Pieces(s, sep, 0);
  }

  /** The loop over characters, cutting at separators where the depth is not positive. */
  method SplitTopLevel(s: string, sep: char) returns (r: seq<string>)
    ensures r == SplitTop(s, sep)
  {
    var pieces: seq<string> := [];
    var depth, start := 0, 0;
    SplittingStarts(s, sep);
    for i := 0 to |s|
      invariant Splitting(s, sep, depth, start, i, pieces)
    {
      var c := s[i];
      if IsCut(c, sep, depth) {
        SplittingCuts(s, sep, depth, start, i, pieces);
      } else {
        SplittingGoesOn(s, sep, depth, start, i, pieces);
      }
      if c == '(' || c == '[' {
        depth := depth + 1;
      } else if c == ')' || c == ']' {
        depth := depth - 1;
      } else if c == sep && depth <= 0 {
        pieces := pieces + [s[start..i]];
        start := i + 1;
      }
    }
    SplittingEnds(s, sep, depth, start, pieces);
    pieces := pieces + [s[start..]];
    r := Kept(pieces);
  }

  // ----- Reading one atom -----

  datatype Constraint = Constraint(relation: string, version: string)

  datatype Atom = Atom(name: string, constraint: Option<Constraint>)

  /** Index of the first digit or letter, or the length. */
  function FirstAlphanumeric(s: string): (i: nat)
    ensures i <= |s|
  {
    if s == "" || IsAlphanumeric(s[0]) then 0 else 1 + FirstAlphanumeric(s[1..])
  }

  /** What stands between the first `(` at `i` and the first `)`, as relation and version. */
  function ParseConstraint(w: string, i: nat): Constraint
    requires i < |w|
  {
    var close := Find(w, ')');
    ParseBody(w[i + 1..if close < i + 1 then i + 1 else close])
  }

  function ParseBody(body: string): Constraint {
    var inner := Trim(body);
    var split := FirstAlphanumeric(inner);
    Constraint(Trim(inner[..split]), Trim(inner[split..]))
  }

  function ParseName(head: string): string {
    var name := Trim(head);
    Trim(name[..Find(name, ':')])
  }

  function ParseAtom(atom: string): Atom {
    var t := Trim(atom);
    var w := t[..Find(t, '[')];
    var i := Find(w, '(');
    Atom(ParseName(w[..i]), if i < |w| then Some(ParseConstraint(w, i)) else None)
  }

  // ----- Printing one -----

  predicate NameChar(c: char) {
    IsAlphanumeric(c) || c == '+' || c == '-' || c == '.'
  }

  predicate VersionChar(c: char) {
    NameChar(c) || c == '~' || c == ':'
  }

  predicate RelationChar(c: char) {
    c == '<' || c == '=' || c == '>'
  }

  predicate WellFormedConstraint(c: Constraint) {
    && c.relation != "" && (forall x :: x in c.relation ==> RelationChar(x))
    && c.version != "" && IsAlphanumeric(c.version[0]) && (forall x :: x in c.version ==> VersionChar(x))
  }

  /** One alternative as a control file writes it. */
  datatype Alternative = Alternative(atom: Atom, qualifier: Option<string>, restriction: Option<string>)

  predicate WellFormed(a: Alternative) {
    && a.atom.name != "" && (forall x :: x in a.atom.name ==> NameChar(x))
    && (a.atom.constraint.Some? ==> WellFormedConstraint(a.atom.constraint.value))
    && (a.qualifier.Some? ==> a.qualifier.value != "" && forall x :: x in a.qualifier.value ==> NameChar(x))
    && (a.restriction.Some? ==> forall x :: x in a.restriction.value ==> Delta(x) == 0)
  }

  function PrintHead(a: Alternative): string {
    a.atom.name + if a.qualifier.Some? then ":" + a.qualifier.value else ""
  }

  function PrintConstraint(c: Option<Constraint>): string {
    if c.Some? then " (" + c.value.relation + " " + c.value.version + ")" else ""
  }

  function PrintRestriction(r: Option<string>): string {
    if r.Some? then " [" + r.value + "]" else ""
  }

  function PrintAlternative(a: Alternative): string {
    PrintHead(a) + PrintConstraint(a.atom.constraint) + PrintRestriction(a.restriction)
  }

  // ----- An atom reads back -----

  /** The head of an alternative: name characters, a colon between them. */
  lemma HeadIsName(a: Alternative)
    requires WellFormed(a)
    ensures forall x :: x in PrintHead(a) ==> NameChar(x) || x == ':'
    ensures PrintHead(a) != "" && NameChar(PrintHead(a)[0]) && NameChar(PrintHead(a)[|PrintHead(a)| - 1])
  {
    var head := PrintHead(a);
    assert head[0] == a.atom.name[0] && a.atom.name[0] in a.atom.name;
    if a.qualifier.Some? {
      var q := a.qualifier.value;
      assert head[|head| - 1] == q[|q| - 1] && q[|q| - 1] in q;
    } else {
      assert head == a.atom.name;
      assert head[|head| - 1] in a.atom.name;
    }
  }

  lemma HeadReads(a: Alternative, pad: string)
    requires WellFormed(a) && (pad == "" || pad == " ")
    ensures ParseName(PrintHead(a) + pad) == a.atom.name
  {
    HeadIsName(a);
    if pad == " " {
      TrimAfterSpace(PrintHead(a));
    } else {
      assert PrintHead(a) + pad == PrintHead(a);
      TrimTrimmed(PrintHead(a));
    }
    NameOfHead(a);
  }

  lemma NameOfHead(a: Alternative)
    requires WellFormed(a)
    ensures PrintHead(a)[..Find(PrintHead(a), ':')] == a.atom.name == Trim(a.atom.name)
  {
    var name := a.atom.name;
    var tail := if a.qualifier.Some? then ":" + a.qualifier.value else "";
    FindPast(name, tail, ':');
    assert (name + tail)[..|name|] == name;
    assert name[0] in name && name[|name| - 1] in name;
    TrimTrimmed(name);
  }

  lemma {:induction false} FirstAlphanumericPast(head: string, tail: string)
    requires forall c :: c in head ==> !IsAlphanumeric(c)
    requires tail != "" && IsAlphanumeric(tail[0])
    ensures FirstAlphanumeric(head + tail) == |head|
  {
    if head == "" {
      assert head + tail == tail;
    } else {
      FrontOfConcat(head, tail);
      FirstAlphanumericPast(head[1..], tail);
    }
  }

  lemma BodyReads(c: Constraint)
    requires WellFormedConstraint(c)
    ensures ParseBody(c.relation + " " + c.version) == c
  {
    var body := c.relation + " " + c.version;
    BodyEnds(c);
    TrimTrimmed(body);
    BodySplit(c);
    TrimAfterSpace(c.relation);
    TrimTrimmed(c.version);
  }

  lemma BodySplit(c: Constraint)
    requires WellFormedConstraint(c)
    ensures
      var body := c.relation + " " + c.version;
      var split := FirstAlphanumeric(body);
      body[..split] == c.relation + " " && body[split..] == c.version
  {
    var front := c.relation + " ";
    RelationChars(c.relation);
    FirstAlphanumericPast(front, c.version);
    assert (front + c.version)[..|front|] == front && (front + c.version)[|front|..] == c.version;
  }

  lemma RelationChars(relation: string)
    requires forall x :: x in relation ==> RelationChar(x)
    ensures forall x :: x in relation + " " ==> !IsAlphanumeric(x) && x != ')'
  {
  }

  lemma VersionChars(version: string)
    requires forall x :: x in version ==> VersionChar(x)
    ensures ')' !in version
  {
  }

  lemma BodyEnds(c: Constraint)
    requires WellFormedConstraint(c)
    ensures IsTrimmed(c.relation) && IsTrimmed(c.version) && IsTrimmed(c.relation + " " + c.version)
  {
    var body := c.relation + " " + c.version;
    assert c.relation[0] in c.relation && c.relation[|c.relation| - 1] in c.relation;
    assert c.version[0] in c.version && c.version[|c.version| - 1] in c.version;
    assert body[|body| - 1] == c.version[|c.version| - 1] && body[0] == c.relation[0];
  }

  /** A constraint printed between `front`, which ends in a space, and `pad`. */
  lemma ConstraintReads(front: string, c: Constraint, pad: string)
    requires WellFormedConstraint(c) && '(' !in front && ')' !in front
    ensures
      var w := front + ("(" + (c.relation + " " + c.version + (")" + pad)));
      Find(w, '(') == |front| && ParseConstraint(w, |front|) == c
  {
    BodyReads(c);
    RelationChars(c.relation);
    VersionChars(c.version);
    NotInConcat(')', c.relation + " ", c.version);
    BetweenBrackets(front, c.relation + " " + c.version, ")" + pad);
  }

  lemma BetweenBrackets(front: string, body: string, close: string)
    requires '(' !in front && ')' !in front && ')' !in body && close != "" && close[0] == ')'
    ensures
      var w := front + ("(" + (body + close));
      Find(w, '(') == |front| && ParseConstraint(w, |front|) == ParseBody(body)
  {
    BracketsFound(front, body, close);
    Slice(front, "(", body, close);
    ParseBetween(front + ("(" + (body + close)), |front|, |front| + 1 + |body|, body);
  }

  lemma ParseBetween(w: string, i: nat, close: nat, body: string)
    requires i < close <= |w| && Find(w, ')') == close && w[i + 1..close] == body
    ensures ParseConstraint(w, i) == ParseBody(body)
  {
  }

  lemma BracketsFound(front: string, body: string, close: string)
    requires '(' !in front && ')' !in front && ')' !in body && close != "" && close[0] == ')'
    ensures Find(front + ("(" + (body + close)), '(') == |front|
    ensures Find(front + ("(" + (body + close)), ')') == |front| + 1 + |body|
  {
    FindPast(front, "(" + (body + close), '(');
    FindPast(front, "(" + (body + close), ')');
    FindPast("(", body + close, ')');
    FindPast(body, close, ')');
  }

  lemma Slice(a: string, b: string, c: string, d: string)
    ensures (a + (b + (c + d)))[|a| + |b|..|a| + |b| + |c|] == c
  {
  }

  lemma PrintedIsTrimmed(a: Alternative)
    requires WellFormed(a)
    ensures IsTrimmed(PrintAlternative(a)) && PrintAlternative(a) != ""
  {
    var s := PrintAlternative(a);
    var head := PrintHead(a);
    HeadIsName(a);
    assert s[0] == head[0];
    if a.restriction.Some? {
      assert s[|s| - 1] == ']';
    } else if a.atom.constraint.Some? {
      assert s[|s| - 1] == ')';
    } else {
      assert s == head;
    }
  }

  /** What is printed before the restriction has no brackets of its own. */
  lemma FrontHasNoBracket(a: Alternative)
    requires WellFormed(a)
    ensures '[' !in PrintHead(a) + PrintConstraint(a.atom.constraint)
  {
    HeadIsName(a);
  }

  lemma BeforeRestriction(a: Alternative)
    requires WellFormed(a)
    ensures
      var s := PrintAlternative(a);
      s[..Find(s, '[')] == PrintHead(a) + PrintConstraint(a.atom.constraint) + if a.restriction.Some? then " " else ""
  {
    var front := PrintHead(a) + PrintConstraint(a.atom.constraint);
    FrontHasNoBracket(a);
    if a.restriction.Some? {
      var after := "[" + a.restriction.value + "]";
      assert PrintRestriction(a.restriction) == " " + after;
      Associative(front, " ", after);
      CutAt(front + " ", after, '[');
    } else {
      CutAt(front, "", '[');
      assert front + "" == front;
    }
  }

  lemma CutAt(before: string, after: string, c: char)
    requires c !in before && (after != "" ==> after[0] == c)
    ensures Find(before + after, c) == |before| && (before + after)[..|before|] == before
  {
    FindPast(before, after, c);
    Prefix(before, after);
  }

  /** Reading a printed alternative gives its atom, whatever its qualifier and restriction. */
  lemma AlternativeReads(a: Alternative)
    requires WellFormed(a)
    ensures ParseAtom(PrintAlternative(a)) == a.atom
  {
    var pad := if a.restriction.Some? then " " else "";
    PrintedIsTrimmed(a);
    TrimTrimmed(PrintAlternative(a));
    BeforeRestriction(a);
    if a.atom.constraint.Some? {
      ConstrainedReads(a, pad);
    } else {
      UnconstrainedReads(a, pad);
    }
  }

  lemma ConstrainedReads(a: Alternative, pad: string)
    requires WellFormed(a) && a.atom.constraint.Some? && (pad == "" || pad == " ")
    ensures
      var w := PrintHead(a) + PrintConstraint(a.atom.constraint) + pad;
      var i := Find(w, '(');
      i < |w| && ParseName(w[..i]) == a.atom.name && ParseConstraint(w, i) == a.atom.constraint.value
  {
    var head, c := PrintHead(a), a.atom.constraint.value;
    HeadIsName(a);
    PrintedConstraint(head, c, pad);
    ConstraintReads(head + " ", c, pad);
    Prefix(head + " ", "(" + (c.relation + " " + c.version + (")" + pad)));
    HeadReads(a, " ");
  }

  lemma UnconstrainedReads(a: Alternative, pad: string)
    requires WellFormed(a) && a.atom.constraint.None? && (pad == "" || pad == " ")
    ensures
      var w := PrintHead(a) + PrintConstraint(a.atom.constraint) + pad;
      Find(w, '(') == |w| && ParseName(w[..|w|]) == a.atom.name
  {
    var w := PrintHead(a) + pad;
    HeadIsName(a);
    assert PrintHead(a) + "" + pad == w == w + "";
    CutAt(w, "", '(');
    HeadReads(a, pad);
  }

  lemma PrintedConstraint(head: string, c: Constraint, pad: string)
    ensures head + PrintConstraint(Some(c)) + pad
         == (head + " ") + ("(" + (c.relation + " " + c.version + (")" + pad)))
  {
  }

  // ----- A whole field reads back -----

  /** No separator outside brackets in `s`, read from depth `depth`. */
  predicate Uncut(s: string, sep: char, depth: int) {
    s == "" || (!IsCut(s[0], sep, depth) && Uncut(s[1..], sep, depth + Delta(s[0])))
  }

  lemma {:induction false} UncutConcat(a: string, b: string, sep: char, depth: int)
    ensures Uncut(a + b, sep, depth) <==> Uncut(a, sep, depth) && Uncut(b, sep, depth + Depth(a))
    ensures Depth(a + b) == Depth(a) + Depth(b)
  {
    if a == "" {
      assert a + b == b;
    } else {
      FrontOfConcat(a, b);
      UncutConcat(a[1..], b, sep, depth + Delta(a[0]));
    }
  }

  /** Text without brackets is cut only where a separator stands at depth zero. */
  lemma {:induction false} FlatText(s: string, sep: char, depth: int)
    requires forall i :: 0 <= i < |s| ==> Delta(s[i]) == 0
    requires 0 < depth || forall i :: 0 <= i < |s| ==> s[i] != sep
    ensures Uncut(s, sep, depth) && Depth(s) == 0
  {
    if s != "" {
      FlatText(s[1..], sep, depth);
    }
  }

  lemma {:induction false} PiecesUncut(a: string, b: string, sep: char, depth: int)
    requires Uncut(a, sep, depth)
    ensures Pieces(a + b, sep, depth) == Glue(a, Pieces(b, sep, depth + Depth(a)))
  {
    if a == "" {
      assert a + b == b;
      GlueFacts("", ' ', Pieces(b, sep, depth));
    } else {
      FrontOfConcat(a, b);
      var rest := Pieces(b, sep, depth + Depth(a));
      PiecesUncut(a[1..], b, sep, depth + Delta(a[0]));
      assert [a[0]] + a[1..] == a;
      assert [a[0]] + (a[1..] + rest[0]) == a + rest[0];
    }
  }

  /** A printed part: nothing to trim, nothing to cut, every bracket closed. */
  predicate Whole(s: string, sep: char) {
    s != "" && IsTrimmed(s) && Uncut(s, sep, 0) && Depth(s) == 0
  }

  predicate Spaces(s: string) {
    forall i :: 0 <= i < |s| ==> s[i] == ' '
  }

  lemma SpacesAreSpaces(s: string)
    requires Spaces(s)
    ensures forall c :: c in s ==> IsSpace(c)
  {
  }

  lemma NoSpaceAndOne()
    ensures Spaces("") && Spaces(" ") && Delta(',') == 0 && Delta('|') == 0
  {
  }

  /** A part and the spaces around it are one piece, of which the part is kept. */
  lemma PaddedPart(before: string, part: string, after: string, sep: char)
    requires Spaces(before) && Spaces(after) && Whole(part, sep) && sep != ' '
    ensures
      var padded := before + part + after;
      Uncut(padded, sep, 0) && Depth(padded) == 0 && KeptOne(padded) == [part]
  {
    assert Uncut(before, sep, 0) && Depth(before) == 0 && Uncut(after, sep, 0) && Depth(after) == 0 by {
      FlatText(before, sep, 0);
      FlatText(after, sep, 0);
    }
    UncutConcat(before, part, sep, 0);
    UncutConcat(before + part, after, sep, 0);
    PaddedTrims(before, part, after);
  }

  lemma PaddedTrims(before: string, part: string, after: string)
    requires Spaces(before) && Spaces(after) && IsTrimmed(part) && part != ""
    ensures KeptOne(before + part + after) == [part]
  {
    SpacesAreSpaces(before);
    SpacesAreSpaces(after);
    TrimPadded(before, part, after);
  }

  lemma KeptCons(piece: string, pieces: seq<string>)
    ensures Kept([piece] + pieces) == KeptOne(piece) + Kept(pieces)
    ensures Kept([piece]) == KeptOne(piece)
  {
    FrontOfConcat([piece], pieces);
    assert [piece][1..] == [];
  }

  lemma OnePiece(padded: string, sep: char)
    requires Uncut(padded, sep, 0)
    ensures Pieces(padded, sep, 0) == [padded]
  {
    PiecesUncut(padded, "", sep, 0);
    assert padded + "" == padded;
  }

  lemma PieceThenCut(padded: string, rest: string, sep: char)
    requires Uncut(padded, sep, 0) && Depth(padded) == 0 && Delta(sep) == 0
    ensures Pieces(padded + ([sep] + rest), sep, 0) == [padded] + Pieces(rest, sep, 0)
  {
    var tail := [sep] + rest;
    assert tail[0] == sep && tail[1..] == rest;
    PiecesUncut(padded, tail, sep, 0);
    GlueFacts(padded, ' ', Pieces(rest, sep, 0));
  }

  lemma LastPart(lead: string, part: string, sep: char)
    requires Spaces(lead) && Whole(part, sep) && sep != ' '
    ensures SplitTop(lead + part, sep) == [part]
  {
    assert lead + part + "" == lead + part;
    PaddedPart(lead, part, "", sep);
    OnePiece(lead + part, sep);
    KeptCons(lead + part, []);
  }

  lemma NextPart(lead: string, part: string, before: string, rest: string, sep: char)
    requires Spaces(lead) && Spaces(before) && Whole(part, sep) && sep != ' ' && Delta(sep) == 0
    ensures SplitTop(lead + part + before + ([sep] + rest), sep) == [part] + SplitTop(rest, sep)
  {
    PaddedPart(lead, part, before, sep);
    PieceThenCut(lead + part + before, rest, sep);
    KeptCons(lead + part + before, Pieces(rest, sep, 0));
  }

  /** Parts joined by a separator with spaces around it split back into the parts. */
  lemma {:induction false} ListReads(lead: string, parts: seq<string>, before: string, sep: char, after: string)
    requires Spaces(lead) && Spaces(before) && Spaces(after) && sep != ' ' && Delta(sep) == 0
    requires parts != [] && forall p :: p in parts ==> Whole(p, sep)
    ensures SplitTop(lead + Join(parts, before + [sep] + after), sep) == parts
    decreases |parts|
  {
    var glue := before + [sep] + after;
    assert parts[0] in parts;
    if |parts| == 1 {
      LastPart(lead, parts[0], sep);
    } else {
      var rest := after + Join(parts[1..], glue);
      ListReads(after, parts[1..], before, sep, after);
      NextPart(lead, parts[0], before, rest, sep);
      JoinStep(lead, parts, before, [sep], after);
    }
  }

  lemma JoinStep(lead: string, parts: seq<string>, before: string, sep: string, after: string)
    requires |parts| > 1
    ensures
      var glue := before + sep + after;
      lead + Join(parts, glue) == lead + parts[0] + before + (sep + (after + Join(parts[1..], glue)))
    ensures [parts[0]] + parts[1..] == parts
  {
    JoinRegroup(lead, parts[0], before, sep, after, Join(parts[1..], before + sep + after));
  }

  lemma JoinedReads(parts: seq<string>, glue: string, before: string, sep: char, after: string)
    requires glue == before + [sep] + after
    requires Spaces(before) && Spaces(after) && sep != ' ' && Delta(sep) == 0
    requires parts != [] && forall p :: p in parts ==> Whole(p, sep)
    ensures SplitTop(Join(parts, glue), sep) == parts
  {
    ListReads("", parts, before, sep, after);
    assert "" + Join(parts, glue) == Join(parts, glue);
  }

  lemma JoinRegroup(a: string, b: string, c: string, d: string, e: string, f: string)
    ensures a + (b + (c + d + e) + f) == a + b + c + (d + (e + f))
  {
    Associative(b, c + d + e, f);
    Associative(a, b, c + d + e + f);
    Associative(a + b, c, d + (e + f));
    Associative(c + d, e, f);
    Associative(c, d, e + f);
    Associative(c + d + e, f, "");
  }

  // A relationship field: groups, each a list of alternatives.

  function PrintAlternatives(group: seq<Alternative>): seq<string> {
    seq(|group|, i requires 0 <= i < |group| => PrintAlternative(group[i]))
  }

  function PrintGroup(group: seq<Alternative>): string {
    Join(PrintAlternatives(group), " | ")
  }

  function PrintGroups(groups: seq<seq<Alternative>>): seq<string> {
    seq(|groups|, i requires 0 <= i < |groups| => PrintGroup(groups[i]))
  }

  function PrintField(groups: seq<seq<Alternative>>): string {
    Join(PrintGroups(groups), ", ")
  }

  function ReadAtoms(alternatives: seq<string>): seq<Atom> {
    seq(|alternatives|, i requires 0 <= i < |alternatives| => ParseAtom(alternatives[i]))
  }

  function ReadGroup(text: string): seq<Atom> {
    ReadAtoms(SplitTop(text, '|'))
  }

  function ReadField(text: string): seq<seq<Atom>> {
    ReadGroupTexts(SplitTop(text, ','))
  }

  function ReadGroupTexts(groups: seq<string>): seq<seq<Atom>> {
    seq(|groups|, i requires 0 <= i < |groups| => ReadGroup(groups[i]))
  }

  function AllAtoms(groups: seq<seq<Alternative>>): seq<seq<Atom>> {
    seq(|groups|, i requires 0 <= i < |groups| => Atoms(groups[i]))
  }

  predicate WellFormedGroup(group: seq<Alternative>) {
    group != [] && forall i :: 0 <= i < |group| ==> WellFormed(group[i])
  }

  function Atoms(group: seq<Alternative>): seq<Atom> {
    seq(|group|, i requires 0 <= i < |group| => group[i].atom)
  }

  /** A printed alternative is whole under either separator, brackets and all. */
  lemma AlternativeIsWhole(a: Alternative, sep: char)
    requires WellFormed(a) && (sep == ',' || sep == '|')
    ensures Whole(PrintAlternative(a), sep)
  {
    var head, con, res := PrintHead(a), PrintConstraint(a.atom.constraint), PrintRestriction(a.restriction);
    PrintedIsTrimmed(a);
    HeadIsFlat(a, sep);
    ConstraintIsWhole(a.atom.constraint, sep);
    RestrictionIsWhole(a.restriction, sep);
    UncutConcat(head, con, sep, 0);
    UncutConcat(head + con, res, sep, 0);
  }

  lemma HeadIsFlat(a: Alternative, sep: char)
    requires WellFormed(a) && (sep == ',' || sep == '|')
    ensures Uncut(PrintHead(a), sep, 0) && Depth(PrintHead(a)) == 0
  {
    HeadIsName(a);
    var head := PrintHead(a);
    forall i | 0 <= i < |head| ensures Delta(head[i]) == 0 && head[i] != sep {
      assert head[i] in head;
    }
    FlatText(head, sep, 0);
  }

  lemma OpenBracket(c: char, sep: char)
    requires (c == '(' || c == '[') && (sep == ',' || sep == '|')
    ensures Uncut(" " + [c], sep, 0) && Depth(" " + [c]) == 1
  {
    var s := " " + [c];
    assert s[0] == ' ' && s[1..] == [c] && [c][1..] == "";
    assert Depth([c]) == 1 && Uncut([c], sep, 0);
  }

  /** An opening bracket, flat text, and a closing bracket, after a space. */
  lemma BracketedIsWhole(open: string, body: string, close: string, sep: char)
    requires (open == " (" && close == ")") || (open == " [" && close == "]")
    requires (sep == ',' || sep == '|') && forall i :: 0 <= i < |body| ==> Delta(body[i]) == 0
    ensures Uncut(open + body + close, sep, 0) && Depth(open + body + close) == 0
  {
    FlatText(body, sep, 1);
    assert close[1..] == "";
    OpenBracket(open[1], sep);
    assert open == " " + [open[1]];
    UncutConcat(open, body, sep, 0);
    UncutConcat(open + body, close, sep, 0);
  }

  lemma ConstraintIsWhole(c: Option<Constraint>, sep: char)
    requires c.Some? ==> WellFormedConstraint(c.value)
    requires sep == ',' || sep == '|'
    ensures Uncut(PrintConstraint(c), sep, 0) && Depth(PrintConstraint(c)) == 0
  {
    if c.Some? {
      var body := c.value.relation + " " + c.value.version;
      forall i | 0 <= i < |body| ensures Delta(body[i]) == 0 {
        var front := c.value.relation + " ";
        assert body[i] == if i < |front| then front[i] else c.value.version[i - |front|];
        assert i < |c.value.relation| ==> front[i] in c.value.relation;
        assert i >= |front| ==> c.value.version[i - |front|] in c.value.version;
      }
      BracketedIsWhole(" (", body, ")", sep);
      assert PrintConstraint(c) == " (" + body + ")";
    }
  }

  lemma RestrictionIsWhole(r: Option<string>, sep: char)
    requires r.Some? ==> forall x :: x in r.value ==> Delta(x) == 0
    requires sep == ',' || sep == '|'
    ensures Uncut(PrintRestriction(r), sep, 0) && Depth(PrintRestriction(r)) == 0
  {
    if r.Some? {
      BracketedIsWhole(" [", r.value, "]", sep);
    }
  }

  lemma PrintedParts(group: seq<Alternative>, sep: char)
    requires WellFormedGroup(group) && (sep == ',' || sep == '|')
    ensures PrintAlternatives(group) != [] && forall p :: p in PrintAlternatives(group) ==> Whole(p, sep)
  {
    var parts := PrintAlternatives(group);
    forall i | 0 <= i < |group| ensures Whole(parts[i], sep) {
      AlternativeIsWhole(group[i], sep);
    }
  }

  lemma GroupReads(group: seq<Alternative>)
    requires WellFormedGroup(group)
    ensures SplitTop(PrintGroup(group), '|') == PrintAlternatives(group)
    ensures ReadGroup(PrintGroup(group)) == Atoms(group)
  {
    PrintedParts(group, '|');
    NoSpaceAndOne();
    JoinedReads(PrintAlternatives(group), " | ", " ", '|', " ");
    AlternativesRead(group);
  }

  lemma AlternativesRead(group: seq<Alternative>)
    requires WellFormedGroup(group)
    ensures ReadAtoms(PrintAlternatives(group)) == Atoms(group)
  {
    var read := ReadAtoms(PrintAlternatives(group));
    forall i | 0 <= i < |group| ensures read[i] == Atoms(group)[i] {
      AlternativeReads(group[i]);
    }
  }

  lemma {:induction false} JoinIsWhole(parts: seq<string>)
    requires parts != [] && forall p :: p in parts ==> Whole(p, ',')
    ensures Whole(Join(parts, " | "), ',')
  {
    assert parts[0] in parts;
    if |parts| > 1 {
      JoinIsWhole(parts[1..]);
      var (first, rest) := (parts[0], Join(parts[1..], " | "));
      FlatText(" | ", ',', 0);
      UncutConcat(first, " | ", ',', 0);
      UncutConcat(first + " | ", rest, ',', 0);
      var s := first + " | " + rest;
      assert s[0] == first[0] && s[|s| - 1] == rest[|rest| - 1];
    }
  }

  lemma GroupIsWhole(group: seq<Alternative>)
    requires WellFormedGroup(group)
    ensures Whole(PrintGroup(group), ',')
  {
    PrintedParts(group, ',');
    JoinIsWhole(PrintAlternatives(group));
  }

  lemma FieldSplits(groups: seq<seq<Alternative>>)
    requires forall i :: 0 <= i < |groups| ==> WellFormedGroup(groups[i])
    ensures SplitTop(PrintField(groups), ',') == PrintGroups(groups)
  {
    var parts := PrintGroups(groups);
    forall i | 0 <= i < |groups| ensures Whole(parts[i], ',') {
      GroupIsWhole(groups[i]);
    }
    if groups == [] {
      assert Pieces("", ',', 0) == [""] && Kept([""]) == [];
    } else {
      NoSpaceAndOne();
      JoinedReads(parts, ", ", "", ',', " ");
    }
  }

  /** Reading a printed field gives its tree of names and constraints back, whatever
      architecture qualifiers and restrictions were printed with them. */
  lemma FieldReads(groups: seq<seq<Alternative>>)
    requires forall i :: 0 <= i < |groups| ==> WellFormedGroup(groups[i])
    ensures ReadField(PrintField(groups)) == AllAtoms(groups)
  {
    FieldSplits(groups);
    GroupsRead(groups);
  }

  lemma GroupsRead(groups: seq<seq<Alternative>>)
    requires forall i :: 0 <= i < |groups| ==> WellFormedGroup(groups[i])
    ensures ReadGroupTexts(PrintGroups(groups)) == AllAtoms(groups)
  {
    forall i | 0 <= i < |groups| ensures ReadGroupTexts(PrintGroups(groups))[i] == AllAtoms(groups)[i] {
      GroupReads(groups[i]);
    }
  }
}
