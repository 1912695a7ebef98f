/** What moved between two solved package sets, `compare_packages` of
    crates/core/src/diff.rs. */
module PackageDeltas {
  import opened BuildFacts
  import opened Lists
  import opened NameWalks
  import opened Text

  datatype PackageRef = PackageRef(name: string, version: string, architecture: string)

  datatype VersionChange = VersionChange(name: string, was: string, now: string)

  datatype PackageChanges = PackageChanges(
    added: seq<PackageRef>, removed: seq<PackageRef>, changed: seq<VersionChange>, rebuilt: seq<PackageRef>)

  type PackageMap = map<string, Package>

  /** Packages by name; a later one of a name replaces an earlier. */
  function Index(ps: seq<Package>): (m: PackageMap)
    ensures forall n :: n in m ==> m[n].name == n
  {
    if ps == [] then map[] else Index(ps[..|ps| - 1])[ps[|ps| - 1].name := ps[|ps| - 1]]
  }

  function PackageName(p: Package): string {
    p.name
  }

  function Names(ps: seq<Package>): seq<string> {
    Mapped(PackageName, ps)
  }

  function RefOf(p: Package): PackageRef {
    PackageRef(p.name, p.version, p.architecture)
  }

  function AddedOf(l: PackageMap, r: PackageMap): string -> seq<PackageRef> {
    n => if n in r && n !in l then [RefOf(r[n])] else []
  }

  function ChangedOf(l: PackageMap, r: PackageMap): string -> seq<VersionChange> {
    n => if n in r && n in l && l[n].version != r[n].version then [VersionChange(n, l[n].version, r[n].version)] else []
  }

  function RebuiltOf(l: PackageMap, r: PackageMap): string -> seq<PackageRef> {
    n => RebuiltLine(l, r, n)
  }

  function RebuiltLine(l: PackageMap, r: PackageMap, n: string): seq<PackageRef> {
    if n in r && n in l && l[n].version == r[n].version && l[n].sha256 != r[n].sha256 then [RefOf(r[n])] else []
  }

  /** The four lists over every name of either side. */
  function PackageDelta(l: seq<Package>, r: seq<Package>): PackageChanges {
    var (ln, rn, lm, rm) := (Names(l), Names(r), Index(l), Index(r));
    PackageChanges(
      Across(AddedOf(lm, rm), ln, rn),
      Across(AddedOf(rm, lm), ln, rn),
      Across(ChangedOf(lm, rm), ln, rn),
      Across(RebuiltOf(lm, rm), ln, rn))
  }

  method IndexByName(ps: seq<Package>) returns (m: PackageMap)
    ensures m == Index(ps)
  {
    m := map[];
    for i := 0 to |ps|
      invariant m == Index(ps[..i])
    {
      FrontOfTake(ps, i);
      m := m[ps[i].name := ps[i]];
    }
    assert ps[..|ps|] == ps;
  }

  method ComparePackages(left: seq<Package>, right: seq<Package>) returns (c: PackageChanges)
    ensures c == PackageDelta(left, right)
  {
    var l := IndexByName(left);
    var r := IndexByName(right);
    forall n | n in InOrder(Names(right)) ensures n in r {
      NameIndexed(right, n);
    }
    c := CompareThere(l, r, InOrder(Names(right)));
    forall n | n in InOrder(Names(left)) ensures n in l {
      NameIndexed(left, n);
    }
    var removed := CollectRemoved(l, r, InOrder(Names(left)));
    c := c.(removed := removed);
    DeltaWalksOneSide(left, right);
  }

  /** The loop over the right side's packages. */
  method CompareThere(l: PackageMap, r: PackageMap, names: seq<string>) returns (c: PackageChanges)
    requires forall n :: n in names ==> n in r
    ensures c == PackageChanges(FlatMap(AddedOf(l, r), names), [], FlatMap(ChangedOf(l, r), names), FlatMap(RebuiltOf(l, r), names))
  {
    var added, changed, rebuilt := [], [], [];
    for i := 0 to |names|
      invariant added == FlatMap(AddedOf(l, r), names[..i])
      invariant changed == FlatMap(ChangedOf(l, r), names[..i])
      invariant rebuilt == FlatMap(RebuiltOf(l, r), names[..i])
    {
      var name := names[i];
      PackageStep(l, r, names, i);
      assert name in names;
      var now := r[name];
      if name !in l {
        added := added + [RefOf(now)];
      } else if l[name].version != now.version {
        changed := changed + [VersionChange(name, l[name].version, now.version)];
      } else if l[name].sha256 != now.sha256 {
        rebuilt := rebuilt + [RefOf(now)];
      }
    }
    assert names[..|names|] == names;
    c := PackageChanges(added, [], changed, rebuilt);
  }

  /** The loop over the left side's packages. */
  method CollectRemoved(l: PackageMap, r: PackageMap, names: seq<string>) returns (removed: seq<PackageRef>)
    requires forall n :: n in names ==> n in l
    ensures removed == FlatMap(AddedOf(r, l), names)
  {
    removed := [];
    for i := 0 to |names|
      invariant removed == FlatMap(AddedOf(r, l), names[..i])
    {
      var name := names[i];
      assert name in names;
      FlatMapStep(AddedOf(r, l), names, i);
      if name !in r {
        removed := removed + [RefOf(l[name])];
      }
    }
    assert names[..|names|] == names;
  }

  lemma {:induction false} Indexed(ps: seq<Package>)
    ensures forall n :: n in Names(ps) <==> n in Index(ps)
  {
    if ps != [] {
      var front, last := ps[..|ps| - 1], ps[|ps| - 1];
      Indexed(front);
      assert Names(ps) == Names(front) + [last.name];
    }
  }

  lemma NameIndexed(ps: seq<Package>, name: string)
    requires name in InOrder(Names(ps))
    ensures name in Index(ps)
  {
    InOrderMeans(Names(ps));
    Indexed(ps);
  }

  /** Walking the names of one side finds every line that speaks only of its packages. */
  lemma AcrossEither<U>(f: string -> seq<U>, l: seq<Package>, r: seq<Package>, side: seq<Package>)
    requires side == l || side == r
    requires forall n :: n !in Index(side) ==> f(n) == []
    ensures FlatMap(f, InOrder(Names(side))) == Across(f, Names(l), Names(r))
  {
    InOrderMeans(Names(side));
    InOrderMeans(Names(l) + Names(r));
    Indexed(side);
    FlatMapWithin(f, InOrder(Names(side)), InOrder(Names(l) + Names(r)));
  }

  lemma DeltaWalksOneSide(l: seq<Package>, r: seq<Package>)
    ensures var (lm, rm, ln, rn) := (Index(l), Index(r), InOrder(Names(l)), InOrder(Names(r)));
            PackageDelta(l, r) == PackageChanges(
              FlatMap(AddedOf(lm, rm), rn), FlatMap(AddedOf(rm, lm), ln), FlatMap(ChangedOf(lm, rm), rn), FlatMap(RebuiltOf(lm, rm), rn))
  {
    var (lm, rm) := (Index(l), Index(r));
    AcrossEither(AddedOf(lm, rm), l, r, r);
    AcrossEither(ChangedOf(lm, rm), l, r, r);
    AcrossEither(RebuiltOf(lm, rm), l, r, r);
    AcrossEither(AddedOf(rm, lm), l, r, l);
  }

  lemma PackageStep(l: PackageMap, r: PackageMap, names: seq<string>, i: nat)
    requires i < |names|
    ensures FlatMap(AddedOf(l, r), names[..i + 1]) == FlatMap(AddedOf(l, r), names[..i]) + AddedOf(l, r)(names[i])
    ensures FlatMap(ChangedOf(l, r), names[..i + 1]) == FlatMap(ChangedOf(l, r), names[..i]) + ChangedOf(l, r)(names[i])
    ensures FlatMap(RebuiltOf(l, r), names[..i + 1]) == FlatMap(RebuiltOf(l, r), names[..i]) + RebuiltOf(l, r)(names[i])
  {
    FlatMapStep(AddedOf(l, r), names, i);
    FlatMapStep(ChangedOf(l, r), names, i);
    FlatMapStep(RebuiltOf(l, r), names, i);
  }

  function RefName(p: PackageRef): string {
    p.name
  }

  function ChangeName(c: VersionChange): string {
    c.name
  }

  /** In how many of the four lists a name stands. */
  function Listed(c: PackageChanges, n: string): nat {
    (if n in Mapped(RefName, c.added) then 1 else 0)
    + (if n in Mapped(RefName, c.removed) then 1 else 0)
    + (if n in Mapped(ChangeName, c.changed) then 1 else 0)
    + (if n in Mapped(RefName, c.rebuilt) then 1 else 0)
  }

  predicate SamePackage(l: PackageMap, r: PackageMap, n: string) {
    && (n in l <==> n in r)
    && (n in l && n in r ==> l[n].version == r[n].version && l[n].sha256 == r[n].sha256)
  }

  lemma InMapped<T, U>(f: T -> U, s: seq<T>, u: U)
    ensures u in Mapped(f, s) <==> exists x :: x in s && f(x) == u
  {
    var m := Mapped(f, s);
    if u in m {
      var i :| 0 <= i < |m| && m[i] == u;
      assert s[i] in s;
    }
    if x :| x in s && f(x) == u {
      var i :| 0 <= i < |s| && s[i] == x;
      assert m[i] == u;
    }
  }

  /** The names a list of lines speaks of. */
  lemma NamesAcross<U>(f: string -> seq<U>, name: U -> string, l: seq<Package>, r: seq<Package>, n: string)
    requires forall x :: |f(x)| <= 1
    requires forall x :: forall u :: u in f(x) ==> name(u) == x
    requires f(n) != [] ==> n in Index(l) || n in Index(r)
    ensures Ascending(Mapped(name, Across(f, Names(l), Names(r))))
    ensures n in Mapped(name, Across(f, Names(l), Names(r))) <==> f(n) != []
  {
    var names := InOrder(Names(l) + Names(r));
    InOrderMeans(Names(l) + Names(r));
    LinesAscend(f, name, names);
    var lines := Across(f, Names(l), Names(r));
    InMapped(name, lines, n);
    if u :| u in lines && name(u) == n {
      AcrossHolds(f, Names(l), Names(r), u);
    }
    if f(n) != [] {
      Indexed(l);
      Indexed(r);
      AcrossHolds(f, Names(l), Names(r), f(n)[0]);
      assert f(n)[0] in f(n);
    }
  }

  lemma AddedNames(l: seq<Package>, r: seq<Package>, n: string)
    ensures var c := PackageDelta(l, r).added;
            && Ascending(Mapped(RefName, c))
            && (n in Mapped(RefName, c) <==> n in Index(r) && n !in Index(l))
            && (forall p :: p in c && p.name == n ==> n in Index(r) && p == RefOf(Index(r)[n]))
  {
    var f := AddedOf(Index(l), Index(r));
    NamesAcross(f, RefName, l, r, n);
    forall p | p in PackageDelta(l, r).added && p.name == n ensures n in Index(r) && p == RefOf(Index(r)[n]) {
      LinesOf(f, RefName, l, r, n, p);
    }
  }

  lemma RemovedNames(l: seq<Package>, r: seq<Package>, n: string)
    ensures var c := PackageDelta(l, r).removed;
            && Ascending(Mapped(RefName, c))
            && (n in Mapped(RefName, c) <==> n in Index(l) && n !in Index(r))
  {
    NamesAcross(AddedOf(Index(r), Index(l)), RefName, l, r, n);
  }

  lemma ChangedNames(l: seq<Package>, r: seq<Package>, n: string)
    ensures var c := PackageDelta(l, r).changed;
            && Ascending(Mapped(ChangeName, c))
            && (n in Mapped(ChangeName, c) <==> n in Index(l) && n in Index(r) && Index(l)[n].version != Index(r)[n].version)
            && (forall p :: p in c && p.name == n ==>
                  n in Index(l) && n in Index(r) && p == VersionChange(n, Index(l)[n].version, Index(r)[n].version))
  {
    var f := ChangedOf(Index(l), Index(r));
    NamesAcross(f, ChangeName, l, r, n);
    forall p | p in PackageDelta(l, r).changed && p.name == n
      ensures n in Index(l) && n in Index(r) && p == VersionChange(n, Index(l)[n].version, Index(r)[n].version)
    {
      LinesOf(f, ChangeName, l, r, n, p);
    }
  }

  lemma RebuiltNames(l: seq<Package>, r: seq<Package>, n: string)
    ensures var c := PackageDelta(l, r).rebuilt;
            && Ascending(Mapped(RefName, c))
            && (n in Mapped(RefName, c) <==>
                  n in Index(l) && n in Index(r) && Index(l)[n].version == Index(r)[n].version && Index(l)[n].sha256 != Index(r)[n].sha256)
  {
    NamesAcross(RebuiltOf(Index(l), Index(r)), RefName, l, r, n);
  }

  /** Every name stands in one list at most, once, and in none exactly where both sides
      have the same bytes of the same version or neither has the package. */
  lemma EachNameOnce(l: seq<Package>, r: seq<Package>, n: string)
    ensures var c := PackageDelta(l, r);
            && Ascending(Mapped(RefName, c.added)) && Ascending(Mapped(RefName, c.removed))
            && Ascending(Mapped(ChangeName, c.changed)) && Ascending(Mapped(RefName, c.rebuilt))
    ensures Listed(PackageDelta(l, r), n) == if SamePackage(Index(l), Index(r), n) then 0 else 1
  {
    AddedNames(l, r, n);
    RemovedNames(l, r, n);
    ChangedNames(l, r, n);
    RebuiltNames(l, r, n);
  }

  /** Lines of one name in a list of lines. */
  lemma LinesOf<U>(f: string -> seq<U>, name: U -> string, l: seq<Package>, r: seq<Package>, n: string, u: U)
    requires forall x :: forall v :: v in f(x) ==> name(v) == x
    requires u in Across(f, Names(l), Names(r)) && name(u) == n
    ensures u in f(n)
  {
    AcrossHolds(f, Names(l), Names(r), u);
  }

  // ----- Following a delta -----

  type VersionMap = map<string, string>

  function Versions(m: PackageMap): VersionMap {
    map n | n in m :: m[n].version
  }

  function Drop(m: VersionMap, refs: seq<PackageRef>): VersionMap {
    if refs == [] then m else Drop(m, refs[..|refs| - 1]) - {refs[|refs| - 1].name}
  }

  function Put(m: VersionMap, refs: seq<PackageRef>): VersionMap {
    if refs == [] then m else var p := refs[|refs| - 1]; Put(m, refs[..|refs| - 1])[p.name := p.version]
  }

  function PutChanges(m: VersionMap, changes: seq<VersionChange>): VersionMap {
    if changes == [] then m else var c := changes[|changes| - 1]; PutChanges(m, changes[..|changes| - 1])[c.name := c.now]
  }

  /** The versions a reader gets who starts from the left ones and follows the delta. */
  function Follow(m: VersionMap, c: PackageChanges): VersionMap {
    PutChanges(Put(Drop(m, c.removed), c.added), c.changed)
  }

  lemma {:induction false} Dropped(m: VersionMap, refs: seq<PackageRef>, n: string)
    ensures n in Drop(m, refs) <==> n in m && n !in Mapped(RefName, refs)
    ensures n in Drop(m, refs) ==> Drop(m, refs)[n] == m[n]
  {
    if refs != [] {
      var front, last := refs[..|refs| - 1], refs[|refs| - 1];
      Dropped(m, front, n);
      MappedFront(RefName, refs);
    }
  }

  lemma {:induction false} Placed(m: VersionMap, refs: seq<PackageRef>, n: string, v: string)
    requires forall p :: p in refs && p.name == n ==> p.version == v
    ensures if n in Mapped(RefName, refs) then n in Put(m, refs) && Put(m, refs)[n] == v
            else (n in Put(m, refs) <==> n in m) && (n in m ==> Put(m, refs)[n] == m[n])
  {
    if refs != [] {
      var front, last := refs[..|refs| - 1], refs[|refs| - 1];
      InFrontOrLast(refs);
      Placed(m, front, n, v);
      MappedFront(RefName, refs);
    }
  }

  lemma {:induction false} ChangesPlaced(m: VersionMap, changes: seq<VersionChange>, n: string, v: string)
    requires forall c :: c in changes && c.name == n ==> c.now == v
    ensures if n in Mapped(ChangeName, changes) then n in PutChanges(m, changes) && PutChanges(m, changes)[n] == v
            else (n in PutChanges(m, changes) <==> n in m) && (n in m ==> PutChanges(m, changes)[n] == m[n])
  {
    if changes != [] {
      var front, last := changes[..|changes| - 1], changes[|changes| - 1];
      InFrontOrLast(changes);
      ChangesPlaced(m, front, n, v);
      MappedFront(ChangeName, changes);
    }
  }

  lemma MappedFront<T, U>(f: T -> U, s: seq<T>)
    requires s != []
    ensures Mapped(f, s) == Mapped(f, s[..|s| - 1]) + [f(s[|s| - 1])]
  {
  }

  /** What the three lists say of one name, and what following them then gives. */
  lemma FollowAt(was: VersionMap, now: VersionMap, c: PackageChanges, n: string)
    requires n in Mapped(RefName, c.removed) <==> n in was && n !in now
    requires n in Mapped(RefName, c.added) <==> n in now && n !in was
    requires n in Mapped(ChangeName, c.changed) <==> n in was && n in now && was[n] != now[n]
    requires forall p :: p in c.added && p.name == n ==> n in now && p.version == now[n]
    requires forall p :: p in c.changed && p.name == n ==> n in now && p.now == now[n]
    ensures n in Follow(was, c) <==> n in now
    ensures n in now ==> Follow(was, c)[n] == now[n]
  {
    var v := if n in now then now[n] else "";
    var dropped := Drop(was, c.removed);
    Dropped(was, c.removed, n);
    Placed(dropped, c.added, n, v);
    ChangesPlaced(Put(dropped, c.added), c.changed, n, v);
  }

  lemma DeltaReconstructsAt(l: seq<Package>, r: seq<Package>, n: string)
    ensures var (got, now) := (Follow(Versions(Index(l)), PackageDelta(l, r)), Versions(Index(r)));
            (n in got <==> n in now) && (n in now ==> got[n] == now[n])
  {
    AddedNames(l, r, n);
    RemovedNames(l, r, n);
    ChangedNames(l, r, n);
    FollowAt(Versions(Index(l)), Versions(Index(r)), PackageDelta(l, r), n);
  }

  lemma SameVersions(a: VersionMap, b: VersionMap)
    requires forall n :: (n in a <==> n in b) && (n in b ==> a[n] == b[n])
    ensures a == b
  {
  }

  /** Following the delta from the left versions gives the right ones. */
  lemma DeltaReconstructs(l: seq<Package>, r: seq<Package>)
    ensures Follow(Versions(Index(l)), PackageDelta(l, r)) == Versions(Index(r))
  {
    var (got, now) := (Follow(Versions(Index(l)), PackageDelta(l, r)), Versions(Index(r)));
    forall n ensures (n in got <==> n in now) && (n in now ==> got[n] == now[n]) {
      DeltaReconstructsAt(l, r, n);
    }
    SameVersions(got, now);
  }

  function MirrorVersion(c: VersionChange): VersionChange {
    VersionChange(c.name, c.now, c.was)
  }

  function WithoutArchitecture(p: PackageRef): PackageRef {
    p.(architecture := "")
  }

  /** A delta in which a rebuilt package does not say for which architecture. */
  function Blurred(c: PackageChanges): PackageChanges {
    c.(rebuilt := Mapped(WithoutArchitecture, c.rebuilt))
  }

  function MirrorPackages(c: PackageChanges): PackageChanges {
    PackageChanges(c.removed, c.added, Mapped(MirrorVersion, c.changed), c.rebuilt)
  }

  function Same<T>(x: T): T {
    x
  }

  lemma MappedSame<T>(s: seq<T>)
    ensures Mapped(Same, s) == s
  {
  }

  function BlurredRebuilt(l: PackageMap, r: PackageMap): string -> seq<PackageRef> {
    n => Mapped(WithoutArchitecture, RebuiltLine(l, r, n))
  }

  lemma RebuiltMirrored(l: seq<Package>, r: seq<Package>)
    ensures Mapped(WithoutArchitecture, PackageDelta(r, l).rebuilt) == Mapped(WithoutArchitecture, PackageDelta(l, r).rebuilt)
  {
    var (ln, rn, lm, rm) := (Names(l), Names(r), Index(l), Index(r));
    FlatMapMapped(WithoutArchitecture, RebuiltOf(lm, rm), BlurredRebuilt(lm, rm), InOrder(ln + rn));
    FlatMapMapped(WithoutArchitecture, RebuiltOf(rm, lm), BlurredRebuilt(rm, lm), InOrder(rn + ln));
    BlurredSame(lm, rm);
    AcrossMirrored(Same, BlurredRebuilt(lm, rm), BlurredRebuilt(rm, lm), ln, rn);
    MappedSame(Across(BlurredRebuilt(lm, rm), ln, rn));
  }

  lemma BlurredLine(l: PackageMap, r: PackageMap, n: string)
    requires (n in l ==> l[n].name == n) && (n in r ==> r[n].name == n)
    ensures Mapped(WithoutArchitecture, RebuiltLine(r, l, n)) == Mapped(WithoutArchitecture, RebuiltLine(l, r, n))
  {
  }

  lemma BlurredSame(l: PackageMap, r: PackageMap)
    requires (forall n :: n in l ==> l[n].name == n) && (forall n :: n in r ==> r[n].name == n)
    ensures forall n :: BlurredRebuilt(r, l)(n) == Mapped(Same, BlurredRebuilt(l, r)(n))
  {
    forall n ensures BlurredRebuilt(r, l)(n) == Mapped(Same, BlurredRebuilt(l, r)(n)) {
      BlurredLine(l, r, n);
      MappedSame(BlurredRebuilt(l, r)(n));
    }
  }

  lemma AddedMirrored(f: string -> seq<PackageRef>, l: seq<Package>, r: seq<Package>)
    ensures Across(f, Names(r), Names(l)) == Across(f, Names(l), Names(r))
  {
    forall n ensures f(n) == Mapped(Same, f(n)) {
      MappedSame(f(n));
    }
    AcrossMirrored(Same, f, f, Names(l), Names(r));
    MappedSame(Across(f, Names(l), Names(r)));
  }

  lemma ChangedMirrored(l: seq<Package>, r: seq<Package>)
    ensures PackageDelta(r, l).changed == Mapped(MirrorVersion, PackageDelta(l, r).changed)
  {
    var (lm, rm) := (Index(l), Index(r));
    forall n ensures ChangedOf(rm, lm)(n) == Mapped(MirrorVersion, ChangedOf(lm, rm)(n)) {
    }
    AcrossMirrored(MirrorVersion, ChangedOf(lm, rm), ChangedOf(rm, lm), Names(l), Names(r));
  }

  lemma PackagesMirrored(l: seq<Package>, r: seq<Package>)
    ensures Blurred(PackageDelta(r, l)) == MirrorPackages(Blurred(PackageDelta(l, r)))
  {
    AddedMirrored(AddedOf(Index(l), Index(r)), l, r);
    AddedMirrored(AddedOf(Index(r), Index(l)), l, r);
    ChangedMirrored(l, r);
    RebuiltMirrored(l, r);
  }

  predicate NoPackageMoved(c: PackageChanges) {
    c.added == [] && c.removed == [] && c.changed == [] && c.rebuilt == []
  }

  ghost predicate PackagesAgree(l: seq<Package>, r: seq<Package>) {
    forall n :: SamePackage(Index(l), Index(r), n)
  }

  /** The delta is empty exactly when both sides install the same packages, by name,
      version and bytes. */
  lemma PackagesQuietWhen(l: seq<Package>, r: seq<Package>)
    ensures NoPackageMoved(PackageDelta(l, r)) <==> PackagesAgree(l, r)
  {
    var (ln, rn, lm, rm) := (Names(l), Names(r), Index(l), Index(r));
    Indexed(l);
    Indexed(r);
    AcrossNothing(AddedOf(lm, rm), ln, rn);
    AcrossNothing(AddedOf(rm, lm), ln, rn);
    AcrossNothing(ChangedOf(lm, rm), ln, rn);
    AcrossNothing(RebuiltOf(lm, rm), ln, rn);
    if NoPackageMoved(PackageDelta(l, r)) {
      forall n ensures SamePackage(lm, rm, n) {
        if n in lm || n in rm {
          assert n in ln || n in rn;
          assert AddedOf(lm, rm)(n) == AddedOf(rm, lm)(n) == RebuiltOf(lm, rm)(n) == [] && ChangedOf(lm, rm)(n) == [];
        }
      }
    } else {
      NotQuiet(l, r);
    }
  }

  lemma NotQuiet(l: seq<Package>, r: seq<Package>)
    requires !NoPackageMoved(PackageDelta(l, r))
    ensures exists n :: !SamePackage(Index(l), Index(r), n)
  {
    var c := PackageDelta(l, r);
    var n := if c.added != [] then c.added[0].name
             else if c.removed != [] then c.removed[0].name
             else if c.changed != [] then c.changed[0].name else c.rebuilt[0].name;
    EachNameOnce(l, r, n);
    InMapped(RefName, c.added, n);
    InMapped(RefName, c.removed, n);
    InMapped(ChangeName, c.changed, n);
    InMapped(RefName, c.rebuilt, n);
  }

  // ----- What each line says -----

  /** A package is known by the last entry of its name. */
  lemma {:induction false} LastOfNameCounts(ps: seq<Package>, i: nat)
    requires i < |ps| && forall j :: i < j < |ps| ==> ps[j].name != ps[i].name
    ensures ps[i].name in Index(ps) && Index(ps)[ps[i].name] == ps[i]
  {
    if i < |ps| - 1 {
      LastOfNameCounts(ps[..|ps| - 1], i);
    }
  }

  lemma LineThere<U>(f: string -> seq<U>, l: seq<Package>, r: seq<Package>, u: U, n: string)
    requires forall x :: u in f(x) ==> x == n
    requires f(n) != [] ==> n in Index(l) || n in Index(r)
    ensures u in Across(f, Names(l), Names(r)) <==> u in f(n)
  {
    AcrossHolds(f, Names(l), Names(r), u);
    Indexed(l);
    Indexed(r);
  }

  ghost predicate ByName(m: PackageMap) {
    forall n :: n in m ==> m[n].name == n
  }

  predicate Tells(p: PackageRef, q: Package) {
    p.version == q.version && p.architecture == q.architecture
  }

  /** The line tells of a package that only the later side has, as it is there. */
  predicate TellsNew(before: PackageMap, after: PackageMap, p: PackageRef) {
    p.name in after && p.name !in before && Tells(p, after[p.name])
  }

  /** The line tells of a package that both sides have, from the left version to the right. */
  predicate TellsMove(l: PackageMap, r: PackageMap, c: VersionChange) {
    c.name in l && c.name in r && c.was == l[c.name].version && c.now == r[c.name].version && c.was != c.now
  }

  /** The line tells of a package that both sides have in one version with other bytes, as it
      is on the right. */
  predicate TellsRebuild(l: PackageMap, r: PackageMap, p: PackageRef) {
    && p.name in l && p.name in r && l[p.name].version == r[p.name].version
    && l[p.name].sha256 != r[p.name].sha256 && Tells(p, r[p.name])
  }

  lemma NewLine(before: PackageMap, after: PackageMap, p: PackageRef)
    requires ByName(after)
    ensures p in AddedOf(before, after)(p.name) <==> TellsNew(before, after, p)
    ensures forall x :: p in AddedOf(before, after)(x) ==> x == p.name
  {
  }

  lemma MoveLine(l: PackageMap, r: PackageMap, c: VersionChange)
    ensures c in ChangedOf(l, r)(c.name) <==> TellsMove(l, r, c)
    ensures forall x :: c in ChangedOf(l, r)(x) ==> x == c.name
  {
  }

  lemma RebuildLine(l: PackageMap, r: PackageMap, p: PackageRef)
    requires ByName(r)
    ensures p in RebuiltOf(l, r)(p.name) <==> TellsRebuild(l, r, p)
    ensures forall x :: p in RebuiltOf(l, r)(x) ==> x == p.name
  {
  }

  /** What each line of a delta says, and that nothing of the kind goes unsaid. */
  lemma LinesTell(l: seq<Package>, r: seq<Package>, p: PackageRef, c: VersionChange)
    ensures var d := PackageDelta(l, r);
            && (p in d.added <==> TellsNew(Index(l), Index(r), p))
            && (p in d.removed <==> TellsNew(Index(r), Index(l), p))
            && (c in d.changed <==> TellsMove(Index(l), Index(r), c))
            && (p in d.rebuilt <==> TellsRebuild(Index(l), Index(r), p))
  {
    var (lm, rm) := (Index(l), Index(r));
    NewLine(lm, rm, p);
    NewLine(rm, lm, p);
    MoveLine(lm, rm, c);
    RebuildLine(lm, rm, p);
    LineThere(AddedOf(lm, rm), l, r, p, p.name);
    LineThere(AddedOf(rm, lm), l, r, p, p.name);
    LineThere(ChangedOf(lm, rm), l, r, c, c.name);
    LineThere(RebuiltOf(lm, rm), l, r, p, p.name);
  }
}
