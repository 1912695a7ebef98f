/** Normalising a path as text: the components Rust reads off a Unix path, and the text of
    a normalised path, around `normalize` of crates/cli/src/fsutil.rs. */
module PathTexts {
  import opened LexicalPath
  import opened Lists
  import opened Text

  function ComponentOf(piece: string): Path {
    if piece == "" || piece == "." then [] else if piece == ".." then [ParentDir] else [Normal(piece)]
  }

  function Lead(s: string): Path {
    if s != "" && s[0] == '/' then [RootDir] else if Split(s, '/')[0] == "." then [CurDir] else []
  }

  /** A root in front, a `.` only in front, and neither empty pieces nor other `.`s. */
  function Components(s: string): Path {
    Lead(s) + FlatMap(ComponentOf, Split(s, '/'))
  }

  function TextOf(c: Component): string {
    match c
    case RootDir => ""
    case CurDir => "."
    case ParentDir => ".."
    case Normal(name) => name
  }

  function Texts(p: Path): seq<string> {
    seq(|p|, i requires 0 <= i < |p| => TextOf(p[i]))
  }

  function Shown(p: Path): string {
    if p == [RootDir] then "/" else Join(Texts(p), "/")
  }

  function NormalizedText(s: string): string {
    Shown(NormalForm(Components(s)))
  }

  method NormalizeText(s: string) returns (t: string)
    ensures t == NormalizedText(s)
  {
    var out := Normalize(Components(s));
    t := Shown(out);
  }

  /** A name that stands for itself between two slashes. */
  predicate IsName(name: string) {
    name != "" && name != "." && name != ".." && '/' !in name
  }

  predicate Named(p: Path) {
    forall i :: 0 <= i < |p| && p[i].Normal? ==> IsName(p[i].name)
  }

  lemma {:induction false} PiecesNamed(pieces: seq<string>)
    requires forall piece :: piece in pieces ==> '/' !in piece
    ensures Named(FlatMap(ComponentOf, pieces))
  {
    if pieces != [] {
      PiecesNamed(pieces[..|pieces| - 1]);
      assert pieces[|pieces| - 1] in pieces;
    }
  }

  lemma ComponentsNamed(s: string)
    ensures Named(Components(s))
  {
    JoinSplit(s, '/');
    PiecesNamed(Split(s, '/'));
  }

  lemma {:induction false} CancelNamed(p: Path)
    requires Named(p)
    ensures Named(CancelAll(p))
  {
    if p != [] {
      CancelNamed(p[..|p| - 1]);
    }
  }

  lemma NormalNamed(s: string)
    ensures Named(NormalForm(Components(s))) && IsNormal(NormalForm(Components(s)))
  {
    ComponentsNamed(s);
    CancelNamed(Components(s));
    NormalFormMeans(Components(s));
  }

  lemma TextReads(c: Component)
    requires c.Normal? ==> IsName(c.name)
    ensures ComponentOf(TextOf(c)) == if c == RootDir || c == CurDir then [] else [c]
    ensures '/' !in TextOf(c) && (c != RootDir ==> TextOf(c) != "")
    ensures TextOf(c) == "." <==> c == CurDir
  {
  }

  /** Behind the first component every text reads as its component. */
  lemma {:induction false} TextsRead(p: Path)
    requires Named(p) && forall i :: 0 <= i < |p| ==> p[i] != RootDir && p[i] != CurDir
    ensures FlatMap(ComponentOf, Texts(p)) == p
  {
    if p != [] {
      var front, last := p[..|p| - 1], p[|p| - 1];
      TextsRead(front);
      TextReads(last);
      assert Texts(p)[..|p| - 1] == Texts(front);
      assert p == front + [last];
    }
  }

  lemma AllTextsRead(p: Path)
    requires Named(p) && Cancelled(p) && p != []
    ensures FlatMap(ComponentOf, Texts(p)) == if p[0] == RootDir then p[1..] else p
  {
    if p[0] == RootDir {
      assert Texts(p) == [""] + Texts(p[1..]);
      FlatMapConcat(ComponentOf, [""], Texts(p[1..]));
      FlatMapOne(ComponentOf, "");
      TextsRead(p[1..]);
    } else {
      TextsRead(p);
    }
  }

  lemma TextsHaveNoSlash(p: Path)
    requires Named(p)
    ensures forall t :: t in Texts(p) ==> '/' !in t
  {
    forall t | t in Texts(p) ensures '/' !in t {
      var i :| 0 <= i < |Texts(p)| && Texts(p)[i] == t;
      TextReads(p[i]);
    }
  }

  lemma JoinStart(parts: seq<string>)
    requires parts != []
    ensures parts[0] != "" ==> Join(parts, "/") != "" && Join(parts, "/")[0] == parts[0][0]
    ensures parts[0] == "" && |parts| > 1 ==> Join(parts, "/") != "" && Join(parts, "/")[0] == '/'
  {
  }

  lemma LeadReads(p: Path)
    requires Named(p) && IsNormal(p) && p != [RootDir]
    ensures Split(Shown(p), '/') == Texts(p)
    ensures Lead(Shown(p)) == LeadOf(p)
  {
    TextsHaveNoSlash(p);
    assert Texts(p) != [];
    SplitJoin(Texts(p), '/');
    JoinStart(Texts(p));
    TextReads(p[0]);
    assert Texts(p)[0] in Texts(p);
    if TextOf(p[0]) != "" {
      assert TextOf(p[0])[0] in TextOf(p[0]);
    }
  }

  function LeadOf(p: Path): Path {
    if p != [] && (p[0] == RootDir || p[0] == CurDir) then [p[0]] else []
  }

  lemma NormalTextsRead(p: Path)
    requires Named(p) && IsNormal(p)
    ensures LeadOf(p) + FlatMap(ComponentOf, Texts(p)) == p
  {
    if p == [CurDir] {
      assert Texts(p) == ["."];
      FlatMapOne(ComponentOf, ".");
    } else {
      AllTextsRead(p);
      assert p == [p[0]] + p[1..];
    }
  }

  /** The text of a normal path reads as that path. */
  lemma ShownReads(p: Path)
    requires Named(p) && IsNormal(p)
    ensures Components(Shown(p)) == p
  {
    if p == [RootDir] {
      RootReads();
    } else {
      LeadReads(p);
      NormalTextsRead(p);
    }
  }

  lemma RootReads()
    ensures Components("/") == [RootDir]
  {
    var s := "/";
    assert s[..0] == "" && s[1..] == "";
    assert Find(s, '/') == 0 && Find("", '/') == 0;
    assert Split(s, '/') == [""] + Split("", '/') == ["", ""];
    FlatMapConcat(ComponentOf, [""], [""]);
    FlatMapOne(ComponentOf, "");
    assert ["", ""] == [""] + [""];
  }

  /** The normalised text names the same directory from everywhere, and normalising it
      again changes nothing. */
  lemma NormalizedTextMeans(s: string)
    ensures SameMeaning(Components(NormalizedText(s)), Components(s))
    ensures NormalizedText(NormalizedText(s)) == NormalizedText(s)
  {
    NormalNamed(s);
    ShownReads(NormalForm(Components(s)));
    NormalFormMeans(Components(s));
    NormalFormIdempotent(Components(s));
  }

  /** Two path texts name one directory from everywhere exactly when they normalise to one
      text. */
  lemma NormalizedTextDecides(s: string, t: string)
    ensures SameMeaning(Components(s), Components(t)) <==> NormalizedText(s) == NormalizedText(t)
  {
    NormalFormDecidesMeaning(Components(s), Components(t));
    NormalNamed(s);
    NormalNamed(t);
    ShownReads(NormalForm(Components(s)));
    ShownReads(NormalForm(Components(t)));
  }
}
