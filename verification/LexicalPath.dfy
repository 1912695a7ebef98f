/** Lexical path normalisation, crates/cli/src/fsutil.rs, against what directory a path
    names. */
module LexicalPath {

  /** The components Rust's `Path::components` yields on Unix. */
  datatype Component = RootDir | CurDir | ParentDir | Normal(name: string)

  type Path = seq<Component>

  /** A directory of a tree without symlinks: the names on the way down from the root. */
  type Directory = seq<string>

  // ----- What a path means -----

  /** One component followed from `dir`; the root is its own parent. */
  function Walk(dir: Directory, c: Component): Directory {
    match c
    case RootDir => []
    case CurDir => dir
    case ParentDir => if dir == [] then [] else dir[..|dir| - 1]
    case Normal(name) => dir + [name]
  }

  /** The directory `path` names when it is used from `cwd`. */
  function Resolve(cwd: Directory, path: Path): Directory {
    if path == [] then cwd
    else Walk(Resolve(cwd, path[..|path| - 1]), path[|path| - 1])
  }

  lemma ResolvePush(cwd: Directory, path: Path, c: Component)
    ensures Resolve(cwd, path + [c]) == Walk(Resolve(cwd, path), c)
  {
    assert (path + [c])[..|path|] == path;
  }

  ghost predicate SameMeaning(p: Path, q: Path) {
    forall cwd :: Resolve(cwd, p) == Resolve(cwd, q)
  }

  // ----- Normal forms -----

  /** A root only in front, no `.`, and a `..` only in front or after another. */
  predicate Cancelled(p: Path) {
    forall i :: 0 <= i < |p| ==>
      && (p[i] == RootDir ==> i == 0)
      && p[i] != CurDir
      && (p[i] == ParentDir ==> i == 0 || p[i - 1] == ParentDir)
  }

  predicate IsNormal(p: Path) {
    p == [CurDir] || (p != [] && Cancelled(p))
  }

  /** `PathBuf::push`: a root replaces what was there. */
  function Push(out: Path, c: Component): Path {
    if c == RootDir then [RootDir] else out + [c]
  }

  /** What one component does to the path built so far. */
  function Cancel(out: Path, c: Component): Path {
    match c
    case CurDir => out
    case ParentDir =>
      if out == [] || out[|out| - 1] == ParentDir then Push(out, c)
      else if out[|out| - 1].Normal? then out[..|out| - 1]
      else out
    case _ => Push(out, c)
  }

  function CancelAll(path: Path): Path {
    if path == [] then [] else Cancel(CancelAll(path[..|path| - 1]), path[|path| - 1])
  }

  function NormalForm(path: Path): Path {
    if CancelAll(path) == [] then [CurDir] else CancelAll(path)
  }

  lemma CancelStaysCancelled(out: Path, c: Component)
    requires Cancelled(out)
    ensures Cancelled(Cancel(out, c))
  {
  }

  lemma CancelMeans(cwd: Directory, out: Path, c: Component)
    requires Cancelled(out)
    ensures Resolve(cwd, Cancel(out, c)) == Walk(Resolve(cwd, out), c)
  {
    if c == RootDir {
      ResolvePush(cwd, [], RootDir);
      assert [RootDir] == [] + [RootDir];
    } else if c == ParentDir && out != [] && out[|out| - 1] != ParentDir {
      var front, last := out[..|out| - 1], out[|out| - 1];
      assert out == front + [last];
      ResolvePush(cwd, front, last);
    } else if c != CurDir {
      ResolvePush(cwd, out, c);
    }
  }

  lemma {:induction false} CancelAllKeeps(cwd: Directory, path: Path)
    ensures Cancelled(CancelAll(path)) && Resolve(cwd, CancelAll(path)) == Resolve(cwd, path)
  {
    if path != [] {
      CancelAllKeeps(cwd, path[..|path| - 1]);
      CancelStaysCancelled(CancelAll(path[..|path| - 1]), path[|path| - 1]);
      CancelMeans(cwd, CancelAll(path[..|path| - 1]), path[|path| - 1]);
    }
  }

  /** Component by component, pushing onto and popping off `out`. */
  method Normalize(path: Path) returns (out: Path)
    ensures IsNormal(out) && SameMeaning(out, path)
    ensures out == NormalForm(path)
  {
    out := [];
    for i := 0 to |path|
      invariant out == CancelAll(path[..i])
    {
      assert path[..i + 1][..i] == path[..i];
      var component := path[i];
      match component {
        case CurDir =>
        case ParentDir =>
          if out == [] || out[|out| - 1] == ParentDir {
            out := Push(out, component);
          } else if out[|out| - 1].Normal? {
            out := out[..|out| - 1];
          }
        case _ => out := Push(out, component);
      }
    }
    assert path[..|path|] == path;
    if out == [] {
      out := Push(out, CurDir);
    }
    NormalFormMeans(path);
  }

  /** The normal form of a path is normal and names the same directory from everywhere. */
  lemma NormalFormMeans(path: Path)
    ensures IsNormal(NormalForm(path)) && SameMeaning(NormalForm(path), path)
  {
    forall cwd ensures Resolve(cwd, NormalForm(path)) == Resolve(cwd, path) {
      CancelAllKeeps(cwd, path);
      ResolveCurDir(cwd);
    }
    CancelAllKeeps([], path);
  }

  lemma ResolveCurDir(cwd: Directory)
    ensures Resolve(cwd, [CurDir]) == Resolve(cwd, []) == cwd
  {
    ResolvePush(cwd, [], CurDir);
    assert [CurDir] == [] + [CurDir];
  }

  // ----- There is only one -----

  /** How many `..` a cancelled path starts with. */
  function Ups(p: Path): (n: nat)
    ensures n <= |p|
    ensures forall i :: 0 <= i < n ==> p[i] == ParentDir
    ensures n < |p| ==> p[n] != ParentDir
  {
    if p != [] && p[0] == ParentDir then 1 + Ups(p[1..]) else 0
  }

  predicate IsAbsolute(p: Path) {
    p != [] && p[0] == RootDir
  }

  /** The names after the root or the leading `..`. */
  function Names(p: Path): Directory {
    if p == [] || !p[|p| - 1].Normal? then [] else Names(p[..|p| - 1]) + [p[|p| - 1].name]
  }

  /** A directory with up to `n` names taken off its end. */
  function Above(dir: Directory, n: nat): Directory {
    if n <= |dir| then dir[..|dir| - n] else []
  }

  /** A cancelled path is its root or leading `..`, and then its names. */
  function Rebuilt(absolute: bool, ups: nat, names: Directory): Path {
    (if absolute then [RootDir] else seq(ups, _ => ParentDir)) + seq(|names|, i requires 0 <= i < |names| => Normal(names[i]))
  }

  lemma ShapeOfUps(p: Path)
    requires Ups(p) == |p| && p != []
    ensures p == Rebuilt(false, Ups(p), Names(p)) && !IsAbsolute(p)
  {
    assert p[0] == ParentDir && p[|p| - 1] == ParentDir;
    assert Names(p) == [];
  }

  lemma NamesNext(front: Path, name: string)
    ensures Names(front + [Normal(name)]) == Names(front) + [name]
  {
    assert (front + [Normal(name)])[..|front|] == front;
  }

  lemma {:induction false} CancelledShape(p: Path)
    requires Cancelled(p)
    ensures p == Rebuilt(IsAbsolute(p), Ups(p), Names(p))
    ensures IsAbsolute(p) ==> Ups(p) == 0
  {
    if p != [] {
      var front, last := p[..|p| - 1], p[|p| - 1];
      CancelledShape(front);
      LastComponent(p);
      assert p == front + [last];
      if last == ParentDir {
        ShapeOfUps(p);
      } else if last.Normal? {
        RebuiltName(IsAbsolute(front), Ups(front), Names(front), last.name);
        NamesNext(front, last.name);
      } else {
        assert p == [RootDir];
      }
    }
  }

  lemma RebuiltName(absolute: bool, ups: nat, names: Directory, name: string)
    ensures Rebuilt(absolute, ups, names + [name]) == Rebuilt(absolute, ups, names) + [Normal(name)]
  {
  }

  /** What the last component of a cancelled path says about the rest. */
  lemma LastComponent(p: Path)
    requires Cancelled(p) && p != []
    ensures
      var (front, last) := (p[..|p| - 1], p[|p| - 1]);
      && Cancelled(front)
      && (last == RootDir ==> front == [] && Ups(p) == 0)
      && (last == ParentDir ==> Ups(p) == |p| && Ups(front) == |front| && Names(front) == [] && !IsAbsolute(p))
      && (last.Normal? ==> Ups(p) == Ups(front) && (IsAbsolute(p) <==> IsAbsolute(front)))
  {
    if p[|p| - 1] == ParentDir {
      AllUps(p, |p| - 1);
      LastUp(p);
    } else {
      UpsOfFront(p);
    }
  }

  lemma LastUp(p: Path)
    requires p != [] && forall k :: 0 <= k < |p| ==> p[k] == ParentDir
    ensures Ups(p) == |p| && Ups(p[..|p| - 1]) == |p| - 1 && Names(p[..|p| - 1]) == []
  {
  }

  lemma UpsOfFront(p: Path)
    requires p != [] && p[|p| - 1] != ParentDir
    ensures Ups(p) == Ups(p[..|p| - 1])
  {
    var n := Ups(p[..|p| - 1]);
    assert forall i :: 0 <= i < n ==> p[i] == ParentDir;
    assert p[n] != ParentDir;
  }

  lemma {:induction false} AllUps(p: Path, i: nat)
    requires Cancelled(p) && i < |p| && p[i] == ParentDir
    ensures forall k :: 0 <= k <= i ==> p[k] == ParentDir
  {
    if i > 0 {
      AllUps(p, i - 1);
    }
  }

  /** What a cancelled path means, in closed form. */
  lemma {:induction false} ResolveCancelled(cwd: Directory, p: Path)
    requires Cancelled(p)
    ensures Resolve(cwd, p) == (if IsAbsolute(p) then [] else Above(cwd, Ups(p))) + Names(p)
  {
    if p != [] {
      var front, last := p[..|p| - 1], p[|p| - 1];
      ResolveCancelled(cwd, front);
      LastComponent(p);
      assert Resolve(cwd, p) == Walk(Resolve(cwd, front), last);
      if last == ParentDir {
        OneMoreAbove(cwd, Ups(front));
      } else if last.Normal? {
        var base := if IsAbsolute(p) then [] else Above(cwd, Ups(p));
        OneNameMore(base, Names(front), last.name);
      }
    }
  }

  lemma OneNameMore(base: Directory, names: Directory, name: string)
    ensures (base + names) + [name] == base + (names + [name])
  {
  }

  lemma OneMoreAbove(dir: Directory, n: nat)
    ensures Walk(Above(dir, n) + [], ParentDir) == Above(dir, n + 1) == Above(dir, n + 1) + []
  {
    assert Above(dir, n) + [] == Above(dir, n);
  }

  /** A directory `n` levels down through `name`. */
  function Deep(n: nat, name: string): Directory {
    seq(n, _ => name)
  }

  /** Seen from deep enough, a cancelled path shows its parts by length. */
  lemma ResolveDeep(n: nat, name: string, p: Path)
    requires Cancelled(p) && Ups(p) <= n
    ensures Resolve(Deep(n, name), p) == (if IsAbsolute(p) then [] else Deep(n - Ups(p), name)) + Names(p)
  {
    ResolveCancelled(Deep(n, name), p);
    AboveDeep(n, Ups(p), name);
  }

  lemma AboveDeep(n: nat, k: nat, name: string)
    requires k <= n
    ensures Above(Deep(n, name), k) == Deep(n - k, name)
  {
  }

  /** Two cancelled paths that name one directory from everywhere are one path. */
  lemma CancelledUnique(p: Path, q: Path)
    requires Cancelled(p) && Cancelled(q) && SameMeaning(p, q)
    ensures p == q
  {
    CancelledShape(p);
    CancelledShape(q);
    SameKind(p, q);
    if Ups(p) < Ups(q) {
      ClimbShows(p, q);
    } else if Ups(q) < Ups(p) {
      ClimbShows(q, p);
    } else {
      SameNames(p, q);
    }
  }

  lemma SameNames(p: Path, q: Path)
    requires Cancelled(p) && Cancelled(q) && SameMeaning(p, q)
    requires IsAbsolute(p) == IsAbsolute(q) && Ups(p) == Ups(q)
    ensures Names(p) == Names(q)
  {
    var n := Ups(p);
    assert Resolve(Deep(n, ""), p) == Resolve(Deep(n, ""), q);
    ResolveDeep(n, "", p);
    ResolveDeep(n, "", q);
    Unprefixed(Names(p));
    Unprefixed(Names(q));
  }

  lemma Unprefixed(names: Directory)
    ensures [] + names == names && Deep(0, "") + names == names
  {
  }

  /** An absolute path names a directory of fixed depth, a relative one does not. */
  lemma SameKind(p: Path, q: Path)
    requires Cancelled(p) && Cancelled(q) && SameMeaning(p, q)
    ensures IsAbsolute(p) <==> IsAbsolute(q)
  {
    var n := Ups(p) + Ups(q) + |Names(p)| + |Names(q)| + 1;
    assert Resolve(Deep(n, ""), p) == Resolve(Deep(n, ""), q);
    ResolveDeep(n, "", p);
    ResolveDeep(n, "", q);
  }

  /** A path that climbs less leaves more of the working directory in view. */
  lemma ClimbShows(p: Path, q: Path)
    requires Cancelled(p) && Cancelled(q) && !IsAbsolute(p) && Ups(p) < Ups(q)
    ensures !SameMeaning(p, q)
  {
    CancelledShape(q);
    var n := Ups(q);
    var name := if Names(q) == [] then "" else Names(q)[0] + "x";
    ResolveDeep(n, name, p);
    ResolveDeep(n, name, q);
    QStartsElsewhere(q, name);
    DeepDiffers(n - Ups(p), name, Names(p), Names(q));
  }

  lemma QStartsElsewhere(q: Path, name: string)
    requires Cancelled(q) && 0 < Ups(q)
    ensures !IsAbsolute(q) && Deep(0, name) + Names(q) == Names(q)
  {
  }

  lemma DeepDiffers(k: nat, name: string, names: Directory, other: Directory)
    requires 0 < k && (other == [] || other[0] != name)
    ensures Deep(k, name) + names != other
  {
    assert (Deep(k, name) + names)[0] == name;
  }

  /** Normal forms are unique: a path has exactly one. */
  lemma NormalFormUnique(p: Path, q: Path)
    requires IsNormal(p) && IsNormal(q) && SameMeaning(p, q)
    ensures p == q
  {
    CurDirIsEmpty(p);
    CurDirIsEmpty(q);
    CancelledUnique(if p == [CurDir] then [] else p, if q == [CurDir] then [] else q);
  }

  lemma CurDirIsEmpty(p: Path)
    ensures p == [CurDir] ==> SameMeaning(p, [])
  {
    if p == [CurDir] {
      forall cwd ensures Resolve(cwd, p) == Resolve(cwd, []) {
        ResolveCurDir(cwd);
      }
    }
  }

  /** Two paths name one directory from everywhere exactly when they normalise alike. */
  lemma NormalFormDecidesMeaning(p: Path, q: Path)
    ensures SameMeaning(p, q) <==> NormalForm(p) == NormalForm(q)
  {
    NormalFormMeans(p);
    NormalFormMeans(q);
    if SameMeaning(p, q) {
      NormalFormUnique(NormalForm(p), NormalForm(q));
    }
  }

  lemma NormalFormIdempotent(p: Path)
    ensures NormalForm(NormalForm(p)) == NormalForm(p)
    ensures IsNormal(p) <==> NormalForm(p) == p
  {
    NormalFormMeans(p);
    NormalFormMeans(NormalForm(p));
    NormalFormUnique(NormalForm(NormalForm(p)), NormalForm(p));
    if IsNormal(p) {
      NormalFormUnique(NormalForm(p), p);
    }
  }
}
