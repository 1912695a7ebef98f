/** Where the members of an admitted package lie, crates/core/src/debcheck.rs: the path rules
    are tests of text, and a member is where its path leads. */
module MemberPaths {
  import opened LexicalPath
  import opened Lists
  import opened PackageRules
  import opened PathTexts
  import opened Text

  predicate Skipped(piece: string) {
    piece == "" || piece == "."
  }

  function StepOf(piece: string): Directory {
    if Skipped(piece) then [] else [piece]
  }

  /** The names on the way from the directory a package is unpacked in to a member. */
  function Steps(path: string): Directory {
    FlatMap(StepOf, Split(path, '/'))
  }

  lemma {:induction false} ResolveConcat(cwd: Directory, p: Path, q: Path)
    ensures Resolve(cwd, p + q) == Resolve(Resolve(cwd, p), q)
  {
    if q == [] {
      assert p + q == p;
    } else {
      ResolveConcat(cwd, p, q[..|q| - 1]);
      assert (p + q)[..|p + q| - 1] == p + q[..|q| - 1];
    }
  }

  lemma ResolveOne(cwd: Directory, c: Component)
    ensures Resolve(cwd, [c]) == Walk(cwd, c)
  {
    assert [c][..0] == [];
  }

  /** Without a step up, every piece that is not skipped is one step down. */
  lemma {:induction false} PiecesLeadDown(cwd: Directory, pieces: seq<string>)
    requires ".." !in pieces
    ensures Resolve(cwd, FlatMap(ComponentOf, pieces)) == cwd + FlatMap(StepOf, pieces)
  {
    if pieces == [] {
      assert cwd + [] == cwd;
    } else {
      var front, last := pieces[..|pieces| - 1], pieces[|pieces| - 1];
      InFrontOrLast(pieces);
      PiecesLeadDown(cwd, front);
      ResolveConcat(cwd, FlatMap(ComponentOf, front), ComponentOf(last));
      var here := cwd + FlatMap(StepOf, front);
      if Skipped(last) {
        assert Resolve(here, []) == here;
        assert FlatMap(StepOf, front) + [] == FlatMap(StepOf, front);
      } else {
        ResolveOne(here, Normal(last));
        Associative(cwd, FlatMap(StepOf, front), [last]);
      }
    }
  }

  lemma DotSlash(path: string)
    requires |path| >= 2 && path[..2] == "./"
    ensures Split(path, '/') == ["."] + Split(path[2..], '/')
  {
    var rest := path[2..];
    assert path == path[..2] + rest;
    assert "./" == "." + ['/'];
    SplitAfter(".", '/', rest);
  }

  lemma FirstPieceIsDot(path: string)
    requires !StraysFromRoot(path)
    ensures path != "" && path[0] == '.' && Split(path, '/')[0] == "." && ".." !in Split(path, '/')
  {
    if path == "." {
      SplitWhole(path, '/');
      assert ".." !in ["."];
    } else {
      DotSlash(path);
      if path == "./" {
        SplitWhole(path[2..], '/');
        assert ".." !in [".", ""];
      }
    }
  }

  /** A path that the member-path rule accepts leads from any directory to a place below it,
      or to itself, by its steps. */
  lemma RelativeStaysBelow(path: string, root: Directory)
    requires !StraysFromRoot(path)
    ensures Resolve(root, Components(path)) == root + Steps(path)
  {
    var pieces := Split(path, '/');
    FirstPieceIsDot(path);
    assert Lead(path) == [CurDir];
    ResolveConcat(root, [CurDir], FlatMap(ComponentOf, pieces));
    ResolveOne(root, CurDir);
    PiecesLeadDown(root, pieces);
  }

  lemma AdmittedPathIsRelative(c: DebContents, arch: Arch, e: DebEntry)
    requires Findings(c, arch) == [] && e in c.entries
    ensures !StraysFromRoot(e.path) && !StartsWith(e.path, USR_LOCAL)
  {
    AdmittedMemberKeeps(c, arch, e, MemberPath);
    AdmittedMemberKeeps(c, arch, e, UsrLocal);
    PathRules(e, PackageArch(c.control) == "all", TargetElf(arch));
  }

  lemma PathRules(e: DebEntry, archAll: bool, target: ElfIdent)
    ensures EntryBreaks(MemberPath, e, archAll, target) <==> StraysFromRoot(e.path)
    ensures EntryBreaks(UsrLocal, e, archAll, target) <==> StartsWith(e.path, USR_LOCAL)
  {
  }

  /** Every member of an admitted package lies in the directory the package is unpacked in,
      whichever that is. */
  lemma AdmittedMembersStayBelow(c: DebContents, arch: Arch, e: DebEntry, root: Directory)
    requires Findings(c, arch) == [] && e in c.entries
    ensures Resolve(root, Components(e.path)) == root + Steps(e.path)
  {
    AdmittedPathIsRelative(c, arch, e);
    RelativeStaysBelow(e.path, root);
  }

  // ----- Under usr/local -----

  /** The member lies below usr/local. */
  predicate UnderUsrLocal(path: string) {
    |Steps(path)| > 2 && Steps(path)[0] == "usr" && Steps(path)[1] == "local"
  }

  const USR_LOCAL := "./usr/local/"

  lemma PrefixSplits(rest: string)
    ensures Split(USR_LOCAL + rest, '/') == [".", "usr", "local"] + Split(rest, '/')
  {
    ThreeCuts(".", "usr", "local", rest);
    PrefixText(rest);
  }

  lemma ThreeCuts(a: string, b: string, c: string, rest: string)
    requires '/' !in a && '/' !in b && '/' !in c
    ensures Split(a + ['/'] + (b + ['/'] + (c + ['/'] + rest)), '/') == [a, b, c] + Split(rest, '/')
  {
    SplitAfter(c, '/', rest);
    SplitAfter(b, '/', c + ['/'] + rest);
    SplitAfter(a, '/', b + ['/'] + (c + ['/'] + rest));
    assert [a] + ([b] + ([c] + Split(rest, '/'))) == [a, b, c] + Split(rest, '/');
  }

  lemma PrefixText(rest: string)
    ensures USR_LOCAL + rest == "." + ['/'] + ("usr" + ['/'] + ("local" + ['/'] + rest))
  {
  }

  /** What the first pieces say of the steps. */
  lemma StepsOfPieces(first: string, pieces: seq<string>)
    ensures FlatMap(StepOf, [first] + pieces) == StepOf(first) + FlatMap(StepOf, pieces)
  {
    FlatMapConcat(StepOf, [first], pieces);
    FlatMapOne(StepOf, first);
  }

  /** A path whose pieces start with the three of the prefix, and go on, starts with it. */
  lemma PiecesGivePrefix(path: string, more: seq<string>)
    requires Split(path, '/') == [".", "usr", "local"] + more && more != []
    ensures StartsWith(path, USR_LOCAL)
  {
    JoinSplit(path, '/');
    var rest := Join(more, "/");
    var pieces := [".", "usr", "local"] + more;
    assert pieces[1..] == ["usr", "local"] + more && pieces[1..][1..] == ["local"] + more && pieces[1..][1..][1..] == more;
    assert Join(["local"] + more, "/") == "local" + "/" + rest;
    assert Join(["usr", "local"] + more, "/") == "usr" + "/" + ("local" + "/" + rest);
    assert path == "." + "/" + ("usr" + "/" + ("local" + "/" + rest));
    PrefixText(rest);
    Prefix(USR_LOCAL, rest);
  }

  /** Whether the path's second or third piece is empty or a dot, so that the text does not
      start the way the place is spelt. */
  predicate StepsAside(path: string) {
    var pieces := Split(path, '/');
    |pieces| > 2 && (Skipped(pieces[1]) || Skipped(pieces[2]))
  }

  lemma SpeltOut(path: string)
    requires !StraysFromRoot(path) && UnderUsrLocal(path) && !StepsAside(path)
    ensures StartsWith(path, USR_LOCAL)
  {
    var pieces := Split(path, '/');
    FirstPieceIsDot(path);
    assert pieces == ["."] + pieces[1..];
    StepsOfPieces(".", pieces[1..]);
    ManySteps(pieces[1..]);
    var (a, b, more) := (pieces[1], pieces[2], pieces[3..]);
    assert pieces[1..] == [a] + ([b] + more);
    StepsOfPieces(a, [b] + more);
    StepsOfPieces(b, more);
    assert Steps(path) == [a] + ([b] + FlatMap(StepOf, more));
    assert a == "usr" && b == "local";
    assert pieces == [".", "usr", "local"] + more;
    assert more == [] ==> FlatMap(StepOf, more) == [];
    PiecesGivePrefix(path, more);
  }

  lemma {:induction false} ManySteps(pieces: seq<string>)
    ensures |FlatMap(StepOf, pieces)| <= |pieces|
  {
    if pieces != [] {
      ManySteps(pieces[..|pieces| - 1]);
    }
  }

  lemma PrefixIsSpelt(path: string)
    requires StartsWith(path, USR_LOCAL)
    ensures !StepsAside(path)
    ensures |Steps(path)| >= 2 && Steps(path)[0] == "usr" && Steps(path)[1] == "local"
  {
    var rest := path[|USR_LOCAL|..];
    assert path == USR_LOCAL + rest;
    PrefixSplits(rest);
    var pieces := Split(rest, '/');
    assert [".", "usr", "local"] + pieces == ["."] + (["usr"] + (["local"] + pieces));
    StepsOfPieces(".", ["usr"] + (["local"] + pieces));
    StepsOfPieces("usr", ["local"] + pieces);
    StepsOfPieces("local", pieces);
  }

  /** The rule against /usr/local names only members that lie there, or are it, and of those
      that lie below it misses exactly the ones whose path has an empty or a dot step in
      front of either name. */
  lemma UsrLocalMissedWhen(path: string)
    requires !StraysFromRoot(path) && UnderUsrLocal(path)
    ensures !StartsWith(path, USR_LOCAL) <==> StepsAside(path)
  {
    if StartsWith(path, USR_LOCAL) {
      PrefixIsSpelt(path);
    }
    if !StepsAside(path) {
      SpeltOut(path);
    }
  }

  lemma DottedPieces(path: string)
    requires path == "./usr/./local/x"
    ensures Split(path, '/') == [".", "usr", ".", "local", "x"]
  {
    var pieces := [".", "usr", ".", "local", "x"];
    JoinFive(".", "usr", ".", "local", "x", "/");
    assert path == Join(pieces, ['/']);
    SplitJoin(pieces, '/');
  }

  lemma JoinFive(a: string, b: string, c: string, d: string, e: string, sep: string)
    ensures Join([a, b, c, d, e], sep) == a + sep + (b + sep + (c + sep + (d + sep + e)))
  {
    var (p, q, r) := ([b, c, d, e], [c, d, e], [d, e]);
    assert [a, b, c, d, e][1..] == p && p[1..] == q && q[1..] == r && r[1..] == [e];
    assert Join([e], sep) == e;
    assert Join(r, sep) == d + sep + e;
    assert Join(q, sep) == c + sep + Join(r, sep);
    assert Join(p, sep) == b + sep + Join(q, sep);
  }

  /** There is such a package: it passes, and its file lies below usr/local. */
  lemma DottedPathIsAdmitted(path: string)
    requires path == "./usr/./local/x"
    ensures UnderUsrLocal(path) && Findings(PlainPackage(path), Armv7) == []
  {
    DottedPieces(path);
    DottedSteps(path);
    assert path[..2] == "./" && ".." !in [".", "usr", ".", "local", "x"];
    UsrLocalMissedWhen(path);
    PlainPackagePasses(path);
  }

  /** A skipped piece and a name in front of others. */
  lemma SkippedThenName(skipped: string, name: string, pieces: seq<string>)
    requires Skipped(skipped) && !Skipped(name)
    ensures FlatMap(StepOf, [skipped, name] + pieces) == [name] + FlatMap(StepOf, pieces)
  {
    var named := [name] + pieces;
    assert [skipped, name] + pieces == [skipped] + named;
    StepsOfPieces(skipped, named);
    StepsOfPieces(name, pieces);
  }

  lemma StepsThroughDots(pieces: seq<string>, a: string, b: string, c: string, d: string, e: string)
    requires pieces == [a, b, c, d, e]
    requires Skipped(a) && !Skipped(b) && Skipped(c) && !Skipped(d) && !Skipped(e)
    ensures FlatMap(StepOf, pieces) == [b, d, e]
  {
    var (back, last) := ([c, d, e], [e]);
    assert pieces == [a, b] + back && back == [c, d] + last;
    SkippedThenName(a, b, back);
    SkippedThenName(c, d, last);
    FlatMapOne(StepOf, e);
  }

  lemma DottedSteps(path: string)
    requires Split(path, '/') == [".", "usr", ".", "local", "x"]
    ensures UnderUsrLocal(path) && StepsAside(path)
  {
    StepsThroughDots(Split(path, '/'), ".", "usr", ".", "local", "x");
  }
}
