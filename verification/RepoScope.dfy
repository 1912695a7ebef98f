/** Which packages the local repository offers the rootfs stage, crates/cli/src/artifacts.rs,
    and which one an install by bare name then picks. */
module RepoScope {
  import opened ArtifactLedger
  import opened Lists
  import opened NameWalks
  import opened Orders
  import opened Sorting
  import opened Text
  import opened Versions
  import opened Wrappers

  /** The file name up to the first underscore. */
  function PackageName(deb: DebPath): Option<string> {
    var cut := Cut(deb.name, '_');
    if cut.None? then None else Some(cut.value.0)
  }

  /** The middle field of a file name of three. */
  function DebVersion(deb: DebPath): Option<string> {
    if EndsWith(deb.name, ".deb") then VersionOf(deb.name[..|deb.name| - 4]) else None
  }

  function VersionOf(stem: string): Option<string> {
    var cut := Cut(stem, '_');
    if cut.None? then None
    else
      var again := Cut(cut.value.1, '_');
      if again.None? then None else Some(again.value.0)
  }

  function FileName(name: string, version: string, arch: string): string {
    name + ("_" + (version + ("_" + (arch + ".deb"))))
  }

  lemma StemOf(name: string, version: string, arch: string)
    ensures FileName(name, version, arch) == name + ("_" + (version + ("_" + arch))) + ".deb"
  {
  }

  lemma StemReads(name: string, version: string, arch: string)
    requires '_' !in name && '_' !in version
    ensures VersionOf(name + ("_" + (version + ("_" + arch)))) == Some(version)
  {
    CutReads(name, '_', version + ("_" + arch));
    CutReads(version, '_', arch);
  }

  lemma DebStem(deb: DebPath, stem: string)
    requires deb.name == stem + ".deb"
    ensures DebVersion(deb) == VersionOf(stem)
  {
    Prefix(stem, ".deb");
  }

  /** The fields of a package's file name are the ones it was written from. */
  lemma FileNameReads(deb: DebPath, name: string, version: string, arch: string)
    requires '_' !in name && '_' !in version
    requires deb.name == FileName(name, version, arch)
    ensures PackageName(deb) == Some(name)
    ensures DebVersion(deb) == Some(version)
  {
    assert PackageName(deb) == Some(name) by {
      CutReads(name, '_', version + ("_" + (arch + ".deb")));
    }
    assert DebVersion(deb) == Some(version) by {
      StemOf(name, version, arch);
      StemReads(name, version, arch);
      DebStem(deb, name + ("_" + (version + ("_" + arch))));
    }
  }

  const IMAGE := "linux-image-"
  const HEADERS := "linux-headers-"

  predicate IsKernelName(name: string) {
    StartsWith(name, IMAGE) || StartsWith(name, HEADERS)
  }

  /** The name and version of a package, where both can be read. */
  function Identity(deb: DebPath): seq<(string, string)> {
    if PackageName(deb).Some? && DebVersion(deb).Some? then [(PackageName(deb).value, DebVersion(deb).value)] else []
  }

  // ----- Scoping -----

  type VersionsByName = map<string, string>

  /** The version built of each module package; a later one of a name replaces an earlier. */
  function ModuleVersions(kmods: seq<DebPath>): VersionsByName {
    if kmods == [] then map[]
    else
      var before, id := ModuleVersions(kmods[..|kmods| - 1]), Identity(kmods[|kmods| - 1]);
      if id == [] then before else before[id[0].0 := id[0].1]
  }

  function KernelVersion(kernel: Option<DebPath>): Option<string> {
    if kernel.Some? then DebVersion(kernel.value) else None
  }

  /** Whether the repository keeps a package. */
  function Keeps(kernel: Option<string>, modules: VersionsByName): DebPath -> bool {
    (deb: DebPath) =>
      var name := PackageName(deb);
      if name.None? then true
      else if IsKernelName(name.value) then kernel.None? || DebVersion(deb) == kernel
      else name.value !in modules || DebVersion(deb) == Some(modules[name.value])
  }

  function Scoped(debs: seq<DebPath>, kernel: Option<DebPath>, kmods: seq<DebPath>): seq<DebPath> {
    Filter(Keeps(KernelVersion(kernel), ModuleVersions(kmods)), debs)
  }

  class RepoInputs {
    var debs: seq<DebPath>

    constructor (debs: seq<DebPath>)
      ensures this.debs == debs
    {
      this.debs := debs;
    }

    /** Drops, in place, what another build left of the packages this one produced. */
    method Scope(kernel: Option<DebPath>, kmods: seq<DebPath>)
      modifies this
      ensures debs == Scoped(old(debs), kernel, kmods)
    {
      var modules := CollectModules(kmods);
      var keeps := Keeps(KernelVersion(kernel), modules);
      var all := debs;
      debs := [];
      for i := 0 to |all|
        invariant debs == Filter(keeps, all[..i])
      {
        FrontOfTake(all, i);
        if keeps(all[i]) {
          debs := debs + [all[i]];
        }
      }
      assert all[..|all|] == all;
    }
  }

  method CollectModules(kmods: seq<DebPath>) returns (m: VersionsByName)
    ensures m == ModuleVersions(kmods)
  {
    m := map[];
    for i := 0 to |kmods|
      invariant m == ModuleVersions(kmods[..i])
    {
      FrontOfTake(kmods, i);
      var id := Identity(kmods[i]);
      if id != [] {
        m := m[id[0].0 := id[0].1];
      }
    }
    assert kmods[..|kmods|] == kmods;
  }

  /** Scoping twice is scoping once. */
  lemma ScopedTwice(debs: seq<DebPath>, kernel: Option<DebPath>, kmods: seq<DebPath>)
    ensures Scoped(Scoped(debs, kernel, kmods), kernel, kmods) == Scoped(debs, kernel, kmods)
  {
    var keeps := Keeps(KernelVersion(kernel), ModuleVersions(kmods));
    FilterTwice(keeps, keeps, debs);
  }

  /** A package of no name that this run built: what scoping must leave alone. */
  function Unrelated(kernel: Option<DebPath>, kmods: seq<DebPath>): DebPath -> bool {
    (deb: DebPath) =>
      var name := PackageName(deb);
      name.None? || if IsKernelName(name.value) then KernelVersion(kernel).None? else name.value !in ModuleVersions(kmods)
  }

  /** Scoping keeps every unrelated package, in its place among the others, and a run that
      built neither kernel nor modules keeps everything. */
  lemma ScopingKeepsUnrelated(debs: seq<DebPath>, kernel: Option<DebPath>, kmods: seq<DebPath>)
    ensures Filter(Unrelated(kernel, kmods), Scoped(debs, kernel, kmods)) == Filter(Unrelated(kernel, kmods), debs)
    ensures Scoped(debs, None, []) == debs
  {
    FilterTwice(Unrelated(kernel, kmods), Keeps(KernelVersion(kernel), ModuleVersions(kmods)), debs);
    FilterAll(Keeps(None, map[]), debs);
  }

  // ----- Highest version wins -----

  /** The package a bare name resolves to: one of the name that no version of it exceeds. */
  ghost predicate IsHighest(deb: DebPath, debs: seq<DebPath>, name: string) {
    && deb in debs && PackageName(deb) == Some(name) && DebVersion(deb).Some?
    && forall e :: e in debs && PackageName(e) == Some(name) && DebVersion(e).Some? ==>
         VersionOrder(DebVersion(e).value, DebVersion(deb).value) != Greater
  }

  /** Where all packages of a name have one version, that version wins. */
  lemma OneVersionWins(deb: DebPath, debs: seq<DebPath>, name: string, version: string)
    requires deb in debs && PackageName(deb) == Some(name) && DebVersion(deb) == Some(version)
    requires forall e :: e in debs && PackageName(e) == Some(name) && DebVersion(e).Some? ==> DebVersion(e) == Some(version)
    ensures IsHighest(deb, debs, name)
    ensures forall e :: IsHighest(e, debs, name) ==> DebVersion(e) == Some(version)
  {
    VersionOrderTotal(version, version);
  }

  datatype Chosen = Names(names: seq<string>) | Ambiguous(listed: seq<string>)

  /** The kernel package to install by name: the built one, or the only one there is. */
  function KernelPackages(kernel: Option<DebPath>, debs: seq<DebPath>): Chosen {
    if kernel.Some? then
      var name := PackageName(kernel.value);
      Names(if name.Some? then [name.value] else [])
    else
      var kernels := Filter(IsImage, debs);
      var distinct := Distinct(FlatMap(Identity, kernels));
      if |distinct| > 1 then Ambiguous(Sort(CompareStrings, Mapped(FileOf, kernels)))
      else Names(Mapped(NameOfId, distinct))
  }

  function FileOf(deb: DebPath): string {
    deb.name
  }

  function NameOfId(id: (string, string)): string {
    id.0
  }

  predicate IsImage(deb: DebPath) {
    PackageName(deb).Some? && StartsWith(PackageName(deb).value, IMAGE)
  }

  /** After scoping, whatever stale packages the directory held, an install of the name
      `KernelPackages` answers gets the built version, and no other version of the kernel
      or its headers is left. */
  lemma BuiltKernelWins(debs: seq<DebPath>, kernel: DebPath, kmods: seq<DebPath>, name: string, version: string)
    requires kernel in debs && PackageName(kernel) == Some(name) && StartsWith(name, IMAGE) && DebVersion(kernel) == Some(version)
    ensures var scoped := Scoped(debs, Some(kernel), kmods);
            && KernelPackages(Some(kernel), scoped) == Names([name])
            && IsHighest(kernel, scoped, name)
            && (forall d :: IsHighest(d, scoped, name) ==> DebVersion(d) == Some(version))
            && (forall d :: d in scoped && PackageName(d).Some? && IsKernelName(PackageName(d).value) ==> DebVersion(d) == Some(version))
  {
    var scoped := Scoped(debs, Some(kernel), kmods);
    var keeps := Keeps(Some(version), ModuleVersions(kmods));
    forall d ensures d in scoped <==> d in debs && keeps(d) {
      InFilter(keeps, debs, d);
    }
    OneVersionWins(kernel, scoped, name, version);
  }

  lemma {:induction false} ModuleVersionsMean(kmods: seq<DebPath>, name: string, version: string)
    requires forall d :: d in kmods && PackageName(d) == Some(name) && DebVersion(d).Some? ==> DebVersion(d) == Some(version)
    ensures name in ModuleVersions(kmods) <==> exists d :: d in kmods && PackageName(d) == Some(name) && DebVersion(d).Some?
    ensures name in ModuleVersions(kmods) ==> ModuleVersions(kmods)[name] == version
  {
    if kmods != [] {
      InFrontOrLast(kmods);
      ModuleVersionsMean(kmods[..|kmods| - 1], name, version);
    }
  }

  predicate HasName(deb: DebPath) {
    PackageName(deb).Some?
  }

  /** A run that built modules never refuses, whatever the directory holds. It installs by
      name exactly the packages it built whose names can be read, in the order built. */
  lemma BuiltModulesNamed(kmods: seq<DebPath>, debs: seq<DebPath>)
    requires kmods != []
    ensures ModulePackages(kmods, debs).Names?
    ensures var (names, built) := (ModulePackages(kmods, debs).names, Filter(HasName, kmods));
            && |names| == |built|
            && forall i :: 0 <= i < |names| ==> PackageName(built[i]) == Some(names[i])
    ensures forall name :: name in ModulePackages(kmods, debs).names <==> exists d :: d in kmods && PackageName(d) == Some(name)
  {
    NamesInOrder(kmods);
    forall name ensures name in FlatMap(NameOf, kmods) <==> exists d :: d in kmods && PackageName(d) == Some(name) {
      InFlatMap(NameOf, kmods, name);
    }
  }

  lemma {:induction false} NamesInOrder(debs: seq<DebPath>)
    ensures |FlatMap(NameOf, debs)| == |Filter(HasName, debs)|
    ensures forall i :: 0 <= i < |Filter(HasName, debs)| ==> PackageName(Filter(HasName, debs)[i]) == Some(FlatMap(NameOf, debs)[i])
  {
    if debs != [] {
      NamesInOrder(debs[..|debs| - 1]);
    }
  }

  /** The same for a module package that this run built in one version, which is among those
      it installs by name. */
  lemma BuiltModuleWins(debs: seq<DebPath>, kernel: Option<DebPath>, kmods: seq<DebPath>, built: DebPath, name: string, version: string)
    requires built in debs && built in kmods && PackageName(built) == Some(name) && DebVersion(built) == Some(version)
    requires !IsKernelName(name)
    requires forall d :: d in kmods && PackageName(d) == Some(name) && DebVersion(d).Some? ==> DebVersion(d) == Some(version)
    ensures var scoped := Scoped(debs, kernel, kmods);
            && IsHighest(built, scoped, name)
            && (forall d :: IsHighest(d, scoped, name) ==> DebVersion(d) == Some(version))
            && (forall d :: d in scoped && PackageName(d) == Some(name) ==> DebVersion(d) == Some(version))
            && ModulePackages(kmods, scoped).Names? && name in ModulePackages(kmods, scoped).names
  {
    var scoped := Scoped(debs, kernel, kmods);
    BuiltModulesNamed(kmods, scoped);
    var keeps := Keeps(KernelVersion(kernel), ModuleVersions(kmods));
    ModuleVersionsMean(kmods, name, version);
    forall d ensures d in scoped <==> d in debs && keeps(d) {
      InFilter(keeps, debs, d);
    }
    OneVersionWins(built, scoped, name, version);
  }

  // ----- A run that builds no kernel -----

  /** The name and version of a kernel image, where both can be read. */
  function ImageIdentity(deb: DebPath): seq<(string, string)> {
    if IsImage(deb) then Identity(deb) else []
  }

  lemma KernelsById(debs: seq<DebPath>)
    ensures FlatMap(Identity, Filter(IsImage, debs)) == FlatMap(ImageIdentity, debs)
  {
    FlatMapFilter(Identity, IsImage, ImageIdentity, debs);
  }

  /** A standalone run refuses exactly when two kernels of readable versions differ in name
      or version. */
  lemma StandaloneRefusal(debs: seq<DebPath>)
    ensures KernelPackages(None, debs).Names? <==> Agreeing(ImageIdentity, debs)
  {
    KernelsById(debs);
    DistinctAgree(ImageIdentity, debs);
  }

  lemma ReadableKernel(d: DebPath, name: string, version: string)
    ensures ImageIdentity(d) == [(name, version)] <==>
            PackageName(d) == Some(name) && StartsWith(name, IMAGE) && DebVersion(d) == Some(version)
  {
  }

  lemma AgreedVersion(debs: seq<DebPath>, d: DebPath, name: string, version: string)
    requires d in debs && ImageIdentity(d) == [(name, version)] && Agreeing(ImageIdentity, debs)
    ensures IsHighest(d, debs, name)
    ensures forall e :: IsHighest(e, debs, name) ==> DebVersion(e) == Some(version)
  {
    ReadableKernel(d, name, version);
    forall e | e in debs && PackageName(e) == Some(name) && DebVersion(e).Some? ensures DebVersion(e) == Some(version) {
      ReadableKernel(e, name, DebVersion(e).value);
    }
    OneVersionWins(d, debs, name, version);
  }

  /** Where it does not refuse and there is such a kernel, that is the one it names, and the
      one version that can win. */
  lemma StandaloneChoice(debs: seq<DebPath>, d: DebPath, name: string, version: string)
    requires d in debs && ImageIdentity(d) == [(name, version)] && KernelPackages(None, debs).Names?
    ensures KernelPackages(None, debs) == Names([name])
    ensures IsHighest(d, debs, name)
    ensures forall e :: IsHighest(e, debs, name) ==> DebVersion(e) == Some(version)
  {
    StandaloneRefusal(debs);
    AgreedVersion(debs, d, name, version);
    StandaloneName(debs, d, name, version);
  }

  lemma StandaloneName(debs: seq<DebPath>, d: DebPath, name: string, version: string)
    requires d in debs && ImageIdentity(d) == [(name, version)] && KernelPackages(None, debs).Names?
    ensures KernelPackages(None, debs) == Names([name])
  {
    KernelsById(debs);
    DistinctIs(ImageIdentity, debs, d);
    assert Mapped(NameOfId, [(name, version)]) == [name];
  }

  /** Where there is none, it names none. */
  lemma StandaloneWithoutKernel(debs: seq<DebPath>)
    ensures KernelPackages(None, debs) == Names([]) <==> forall d :: d in debs ==> ImageIdentity(d) == []
  {
    KernelsById(debs);
    FlatMapEmpty(ImageIdentity, debs);
    DistinctOne(FlatMap(ImageIdentity, debs));
  }

  // ----- A run that builds no modules -----

  const MODULES := "-modules-"
  const FIRMWARE := "-firmware"

  /** What follows the first occurrence of a pattern. */
  function After(s: string, pattern: string): Option<string> {
    if StartsWith(s, pattern) then Some(s[|pattern|..])
    else if s == "" then None
    else After(s[1..], pattern)
  }

  lemma {:induction false} AfterMeans(s: string, pattern: string)
    ensures After(s, pattern).None? <==> forall i: nat :: !OccursAt(s, pattern, i)
    ensures After(s, pattern).Some? ==>
              exists i: nat :: OccursAt(s, pattern, i) && After(s, pattern).value == s[i + |pattern|..]
                && forall j: nat :: j < i ==> !OccursAt(s, pattern, j)
  {
    if StartsWith(s, pattern) {
      assert OccursAt(s, pattern, 0);
    } else if s == "" {
      assert forall i: nat :: OccursAt(s, pattern, i) ==> i == 0 && pattern == "";
    } else {
      AfterMeans(s[1..], pattern);
      assert !OccursAt(s, pattern, 0);
      forall i: nat | 0 < i ensures OccursAt(s, pattern, i) <==> OccursAt(s[1..], pattern, i - 1) {
        OccursBehind(s, pattern, i);
      }
      if After(s, pattern).Some? {
        var k: nat :| OccursAt(s[1..], pattern, k) && After(s, pattern).value == s[1..][k + |pattern|..]
          && forall j: nat :: j < k ==> !OccursAt(s[1..], pattern, j);
        assert s[1..][k + |pattern|..] == s[k + 1 + |pattern|..];
        assert OccursAt(s, pattern, k + 1);
      } else {
        forall i: nat ensures !OccursAt(s, pattern, i) {
          if i > 0 {
            assert !OccursAt(s[1..], pattern, i - 1);
          }
        }
      }
    }
  }

  lemma OccursBehind(s: string, pattern: string, i: nat)
    requires s != "" && 0 < i
    ensures OccursAt(s, pattern, i) <==> OccursAt(s[1..], pattern, i - 1)
  {
    if i + |pattern| <= |s| {
      assert s[1..][i - 1..i - 1 + |pattern|] == s[i..i + |pattern|];
    }
  }

  function ModuleName(deb: DebPath): seq<string> {
    var name := PackageName(deb);
    if name.Some? && (After(name.value, MODULES).Some? || EndsWith(name.value, FIRMWARE)) then [name.value] else []
  }

  /** The kernel release a modules package is for. */
  function Release(name: string): seq<string> {
    var r := After(name, MODULES);
    if r.Some? then [r.value] else []
  }

  function NameOf(deb: DebPath): seq<string> {
    var name := PackageName(deb);
    if name.Some? then [name.value] else []
  }

  /** The module packages to install by name: the built ones, or those that are there. */
  function ModulePackages(kmods: seq<DebPath>, debs: seq<DebPath>): Chosen {
    if kmods != [] then Names(FlatMap(NameOf, kmods))
    else
      var names := InOrder(FlatMap(ModuleName, debs));
      if |Distinct(FlatMap(Release, names))| > 1 then Ambiguous(names) else Names(names)
  }

  predicate IsModuleName(debs: seq<DebPath>, name: string) {
    exists d :: d in debs && ModuleName(d) == [name]
  }

  lemma ModuleNamesMean(debs: seq<DebPath>, name: string)
    ensures name in InOrder(FlatMap(ModuleName, debs)) <==> IsModuleName(debs, name)
  {
    InOrderMeans(FlatMap(ModuleName, debs));
    InFlatMap(ModuleName, debs, name);
  }

  /** A standalone run refuses exactly when two module packages are for different kernel
      releases. Otherwise it names every module and firmware package once, in order. */
  lemma StandaloneModules(debs: seq<DebPath>)
    ensures ModulePackages([], debs).Names? <==>
            forall m, n :: IsModuleName(debs, m) && IsModuleName(debs, n) && Release(m) != [] && Release(n) != [] ==> Release(m) == Release(n)
    ensures ModulePackages([], debs).Names? ==>
              && Ascending(ModulePackages([], debs).names)
              && forall n :: n in ModulePackages([], debs).names <==> IsModuleName(debs, n)
  {
    var names := InOrder(FlatMap(ModuleName, debs));
    InOrderMeans(FlatMap(ModuleName, debs));
    forall n ensures n in names <==> IsModuleName(debs, n) {
      ModuleNamesMean(debs, n);
    }
    DistinctAgree(Release, names);
  }

  // ----- How the packages are told by their names -----

  lemma StartsWithMeans(s: string, start: string)
    ensures StartsWith(s, start) <==> exists rest :: s == start + rest
  {
    if StartsWith(s, start) {
      assert s == start + s[|start|..];
    }
  }

  lemma EndsWithMeans(s: string, end: string)
    ensures EndsWith(s, end) <==> exists rest :: s == rest + end
  {
    if EndsWith(s, end) {
      assert s == s[..|s| - |end|] + end;
    }
  }

  lemma OccursMeans(s: string, pattern: string)
    ensures After(s, pattern).Some? <==> exists before, after :: s == before + pattern + after
  {
    AfterMeans(s, pattern);
    if i: nat :| OccursAt(s, pattern, i) {
      assert s == s[..i] + pattern + s[i + |pattern|..];
    }
    if before, after :| s == before + pattern + after {
      assert s[|before|..|before| + |pattern|] == pattern;
      assert OccursAt(s, pattern, |before|);
    }
  }

  /** The kernel's packages are the images and the headers, by what their names start with. */
  lemma KernelNames(d: DebPath, name: string, image: string, headers: string)
    requires image == "linux-image-" && headers == "linux-headers-" && PackageName(d) == Some(name)
    ensures IsImage(d) <==> exists rest :: name == image + rest
    ensures IsKernelName(name) <==> (exists rest :: name == image + rest) || (exists rest :: name == headers + rest)
  {
    StartsWithMeans(name, image);
    StartsWithMeans(name, headers);
  }

  /** The packages of modules are told by the infix before the kernel release they are for,
      and those of their firmware by the end of the name. */
  lemma ModuleNames(d: DebPath, name: string, modules: string, firmware: string)
    requires modules == "-modules-" && firmware == "-firmware" && PackageName(d) == Some(name)
    ensures ModuleName(d) == [name] <==>
      (exists driver, release :: name == driver + modules + release) || (exists driver :: name == driver + firmware)
    ensures Release(name) == if After(name, modules).Some? then [After(name, modules).value] else []
  {
    OccursMeans(name, modules);
    EndsWithMeans(name, firmware);
  }

  /** A refusal lists the file name of every kernel there is, in order. */
  lemma RefusalListsKernels(debs: seq<DebPath>, file: string)
    requires KernelPackages(None, debs).Ambiguous?
    ensures Sorted(CompareStrings, KernelPackages(None, debs).listed)
    ensures file in KernelPackages(None, debs).listed <==> exists d :: d in debs && IsImage(d) && d.name == file
  {
    var kernels := Filter(IsImage, debs);
    var files := Mapped(FileOf, kernels);
    StringOrder();
    SortSorted(CompareStrings, files);
    InMultiset(file, files);
    InMultiset(file, Sort(CompareStrings, files));
    forall d ensures d in kernels <==> d in debs && IsImage(d) {
      InFilter(IsImage, debs, d);
    }
  }
}
