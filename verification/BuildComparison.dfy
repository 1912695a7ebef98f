/** What moved between two build points, `compare` of crates/core/src/diff.rs. The delta of
    two kernel fragment sets and of two file manifests are parameters. */
module BuildComparison {
  import opened BuildFacts
  import opened NameWalks
  import opened PackageDeltas
  import opened Wrappers

  // ----- One value -----

  datatype Change = Change(was: Option<string>, now: Option<string>)

  function Between(was: Option<string>, now: Option<string>): Option<Change> {
    if was != now then Some(Change(was, now)) else None
  }

  function MirrorChange(c: Change): Change {
    Change(c.now, c.was)
  }

  function MirrorOption(c: Option<Change>): Option<Change> {
    if c.None? then None else Some(MirrorChange(c.value))
  }

  /** The value a reader gets who starts from the left one and follows the change. */
  function Followed(was: Option<string>, c: Option<Change>): Option<string> {
    if c.None? then was else c.value.now
  }

  /** Following a change leads from the left value to the right one, and its mirror image
      back; there is none exactly when the values are the same. */
  lemma BetweenMeans(was: Option<string>, now: Option<string>)
    ensures Between(was, now).None? <==> was == now
    ensures Between(now, was) == MirrorOption(Between(was, now))
    ensures Followed(was, Between(was, now)) == now
    ensures Followed(now, MirrorOption(Between(was, now))) == was
    ensures forall v :: Between(None, Some(v)) == Some(Change(None, Some(v)))
  {
  }

  // ----- Sections -----

  /** Who cannot answer: neither side, or the one with this title. */
  datatype Missing = Neither(what: string) | OneSide(title: string, what: string)

  datatype Section<+T> = Unavailable(why: Missing) | Compared(changes: T)

  function WhyMissing(left: string, right: string, hasLeft: bool, hasRight: bool, what: string): Missing
    requires !hasLeft || !hasRight
  {
    if !hasLeft && !hasRight then Neither(what) else OneSide(if hasLeft then right else left, what)
  }

  /** Two answers compared, or the reason that there are not two. */
  function SectionOf<T, U>(left: string, right: string, l: Option<T>, r: Option<T>, what: string, diff: (T, T) -> U): Section<U> {
    if l.Some? && r.Some? then Compared(diff(l.value, r.value))
    else Unavailable(WhyMissing(left, right, l.Some?, r.Some?, what))
  }

  function MapSection<T, U>(f: T -> U, s: Section<T>): Section<U> {
    if s.Compared? then Compared(f(s.changes)) else Unavailable(s.why)
  }

  predicate Quiet<T>(empty: T -> bool, s: Section<T>) {
    s.Compared? ==> empty(s.changes)
  }

  predicate IsEmpty<T(==)>(s: seq<T>) {
    s == []
  }

  // ----- One pin per axis -----

  function Axes<T>(axis: T -> string, s: seq<T>): seq<string> {
    Mapped(axis, s)
  }

  datatype PatchAxisChange = PatchAxisChange(
    axis: string, seriesAdded: seq<string>, seriesRemoved: seq<string>, reference: Option<Change>, commit: Option<Change>)

  datatype SourceChange = SourceChange(axis: string, reference: Option<Change>, commit: Option<Change>)

  /** What one axis pins; where the side says nothing of it, no series and no pin. */
  function PatchesOn(s: seq<PatchAxis>, axis: string): PatchAxis {
    var p := First(PatchAxisName, s, axis);
    if p.Some? then p.value else PatchAxis(axis, [], None, None)
  }

  function SourceOn(s: seq<SourcePin>, axis: string): SourcePin {
    var p := First(SourceAxisName, s, axis);
    if p.Some? then p.value else SourcePin(axis, None, None)
  }

  /** The series of `s` that `other` does not name, in order. */
  function NotIn(s: seq<string>, other: seq<string>): seq<string> {
    if s == [] then []
    else if s[0] in other then NotIn(s[1..], other)
    else [s[0]] + NotIn(s[1..], other)
  }

  lemma {:induction false} NotInNothing(s: seq<string>, other: seq<string>)
    ensures NotIn(s, other) == [] <==> forall x :: x in s ==> x in other
  {
    if s != [] {
      NotInNothing(s[1..], other);
      assert s == [s[0]] + s[1..];
    }
  }

  /** The line of one axis, if it moved. */
  function PatchLine(axis: string, a: PatchAxis, b: PatchAxis): seq<PatchAxisChange> {
    var c := PatchAxisChange(axis, NotIn(b.series, a.series), NotIn(a.series, b.series),
                             Between(a.reference, b.reference), Between(a.commit, b.commit));
    if c.seriesAdded == [] && c.seriesRemoved == [] && c.reference.None? && c.commit.None? then [] else [c]
  }

  function SourceLine(axis: string, a: SourcePin, b: SourcePin): seq<SourceChange> {
    var c := SourceChange(axis, Between(a.reference, b.reference), Between(a.commit, b.commit));
    if c.reference.Some? || c.commit.Some? then [c] else []
  }

  function PatchesOf(l: seq<PatchAxis>, r: seq<PatchAxis>): string -> seq<PatchAxisChange> {
    axis => PatchLine(axis, PatchesOn(l, axis), PatchesOn(r, axis))
  }

  function SourcesOf(l: seq<SourcePin>, r: seq<SourcePin>): string -> seq<SourceChange> {
    axis => SourceLine(axis, SourceOn(l, axis), SourceOn(r, axis))
  }

  function PatchDelta(l: seq<PatchAxis>, r: seq<PatchAxis>): Section<seq<PatchAxisChange>> {
    if l == [] && r == [] then Unavailable(Neither("a patch series"))
    else Compared(Across(PatchesOf(l, r), Axes(PatchAxisName, l), Axes(PatchAxisName, r)))
  }

  function SourceDelta(l: seq<SourcePin>, r: seq<SourcePin>): Section<seq<SourceChange>> {
    if l == [] && r == [] then Unavailable(Neither("a source outside the kernel"))
    else Compared(Across(SourcesOf(l, r), Axes(SourceAxisName, l), Axes(SourceAxisName, r)))
  }

  function MirrorPatch(c: PatchAxisChange): PatchAxisChange {
    PatchAxisChange(c.axis, c.seriesRemoved, c.seriesAdded, MirrorOption(c.reference), MirrorOption(c.commit))
  }

  function MirrorSource(c: SourceChange): SourceChange {
    SourceChange(c.axis, MirrorOption(c.reference), MirrorOption(c.commit))
  }

  predicate SameSeries(a: seq<string>, b: seq<string>) {
    (forall x :: x in a ==> x in b) && (forall x :: x in b ==> x in a)
  }

  /** Two pins of one axis that a comparison cannot tell apart. */
  predicate SamePatches(a: PatchAxis, b: PatchAxis) {
    SameSeries(a.series, b.series) && a.reference == b.reference && a.commit == b.commit
  }

  lemma NothingOn<T>(axis: T -> string, s: seq<T>, name: string)
    ensures First(axis, s, name).None? <==> name !in Axes(axis, s)
  {
    if s != [] {
      NothingOn(axis, s[1..], name);
      assert Axes(axis, s) == [axis(s[0])] + Axes(axis, s[1..]);
    }
  }

  predicate SameSources(a: SourcePin, b: SourcePin) {
    a.reference == b.reference && a.commit == b.commit
  }

  lemma PatchLineMeans(axis: string, a: PatchAxis, b: PatchAxis)
    ensures PatchLine(axis, a, b) == [] <==> SamePatches(a, b)
    ensures PatchLine(axis, b, a) == Mapped(MirrorPatch, PatchLine(axis, a, b))
  {
    NotInNothing(a.series, b.series);
    NotInNothing(b.series, a.series);
  }

  lemma SourceLineMeans(axis: string, a: SourcePin, b: SourcePin)
    ensures SourceLine(axis, a, b) == [] <==> SameSources(a, b)
    ensures SourceLine(axis, b, a) == Mapped(MirrorSource, SourceLine(axis, a, b))
  {
  }

  predicate PatchesAgree(l: seq<PatchAxis>, r: seq<PatchAxis>, axis: string) {
    SamePatches(PatchesOn(l, axis), PatchesOn(r, axis))
  }

  predicate SourcesAgree(l: seq<SourcePin>, r: seq<SourcePin>, axis: string) {
    SameSources(SourceOn(l, axis), SourceOn(r, axis))
  }

  lemma PatchesAgreeMeans(l: seq<PatchAxis>, r: seq<PatchAxis>, axis: string)
    ensures PatchesOf(l, r)(axis) == [] <==> PatchesAgree(l, r, axis)
    ensures axis !in Axes(PatchAxisName, l) && axis !in Axes(PatchAxisName, r) ==> PatchesAgree(l, r, axis)
  {
    PatchLineMeans(axis, PatchesOn(l, axis), PatchesOn(r, axis));
    NothingOn(PatchAxisName, l, axis);
    NothingOn(PatchAxisName, r, axis);
  }

  lemma SourcesAgreeMeans(l: seq<SourcePin>, r: seq<SourcePin>, axis: string)
    ensures SourcesOf(l, r)(axis) == [] <==> SourcesAgree(l, r, axis)
    ensures axis !in Axes(SourceAxisName, l) && axis !in Axes(SourceAxisName, r) ==> SourcesAgree(l, r, axis)
  {
    SourceLineMeans(axis, SourceOn(l, axis), SourceOn(r, axis));
    NothingOn(SourceAxisName, l, axis);
    NothingOn(SourceAxisName, r, axis);
  }

  /** The patch section says nothing exactly when every axis names the same series, as a
      set, at the same pin. */
  lemma PatchesQuietWhen(l: seq<PatchAxis>, r: seq<PatchAxis>)
    ensures Quiet(IsEmpty, PatchDelta(l, r)) <==> forall axis :: PatchesAgree(l, r, axis)
  {
    var f := PatchesOf(l, r);
    forall axis ensures f(axis) == [] <==> PatchesAgree(l, r, axis) {
      PatchesAgreeMeans(l, r, axis);
    }
    forall axis | axis !in Axes(PatchAxisName, l) && axis !in Axes(PatchAxisName, r) ensures f(axis) == [] {
      PatchesAgreeMeans(l, r, axis);
    }
    AcrossSilent(f, Axes(PatchAxisName, l), Axes(PatchAxisName, r));
  }

  /** Applying the same series in another order is not reported. */
  lemma ReorderedSeriesIsSilent(axis: string, x: string, y: string, reference: Option<string>, commit: Option<string>)
    ensures PatchDelta([PatchAxis(axis, [x, y], reference, commit)], [PatchAxis(axis, [y, x], reference, commit)]) == Compared([])
  {
    var (l, r) := ([PatchAxis(axis, [x, y], reference, commit)], [PatchAxis(axis, [y, x], reference, commit)]);
    assert SameSeries([x, y], [y, x]) by {
      assert [x, y][0] == [y, x][1] && [x, y][1] == [y, x][0];
    }
    forall a ensures PatchesAgree(l, r, a) {
      assert l[1..] == r[1..] == [];
    }
    PatchesQuietWhen(l, r);
  }

  lemma SourcesQuietWhen(l: seq<SourcePin>, r: seq<SourcePin>)
    ensures Quiet(IsEmpty, SourceDelta(l, r)) <==> forall axis :: SourcesAgree(l, r, axis)
  {
    var f := SourcesOf(l, r);
    forall axis ensures f(axis) == [] <==> SourcesAgree(l, r, axis) {
      SourcesAgreeMeans(l, r, axis);
    }
    forall axis | axis !in Axes(SourceAxisName, l) && axis !in Axes(SourceAxisName, r) ensures f(axis) == [] {
      SourcesAgreeMeans(l, r, axis);
    }
    AcrossSilent(f, Axes(SourceAxisName, l), Axes(SourceAxisName, r));
  }

  function MirrorPatches(c: seq<PatchAxisChange>): seq<PatchAxisChange> {
    Mapped(MirrorPatch, c)
  }

  function MirrorSources(c: seq<SourceChange>): seq<SourceChange> {
    Mapped(MirrorSource, c)
  }

  lemma PatchesMirrored(l: seq<PatchAxis>, r: seq<PatchAxis>)
    ensures PatchDelta(r, l) == MapSection(MirrorPatches, PatchDelta(l, r))
  {
    forall axis ensures PatchesOf(r, l)(axis) == Mapped(MirrorPatch, PatchesOf(l, r)(axis)) {
      PatchLineMeans(axis, PatchesOn(l, axis), PatchesOn(r, axis));
    }
    AcrossMirrored(MirrorPatch, PatchesOf(l, r), PatchesOf(r, l), Axes(PatchAxisName, l), Axes(PatchAxisName, r));
  }

  lemma SourcesMirrored(l: seq<SourcePin>, r: seq<SourcePin>)
    ensures SourceDelta(r, l) == MapSection(MirrorSources, SourceDelta(l, r))
  {
    forall axis ensures SourcesOf(r, l)(axis) == Mapped(MirrorSource, SourcesOf(l, r)(axis)) {
      SourceLineMeans(axis, SourceOn(l, axis), SourceOn(r, axis));
    }
    AcrossMirrored(MirrorSource, SourcesOf(l, r), SourcesOf(r, l), Axes(SourceAxisName, l), Axes(SourceAxisName, r));
  }

  // ----- The other sections -----

  datatype KernelChanges<+S> = KernelChanges(
    id: Option<Change>, flavor: Option<Change>, source: Option<Change>, reference: Option<Change>,
    commit: Option<Change>, package: Option<Change>, kconfig: Section<seq<S>>)

  function KernelDelta<S>(kconfig: Section<seq<S>>): (KernelFacts, KernelFacts) -> KernelChanges<S> {
    (l: KernelFacts, r: KernelFacts) =>
      KernelChanges(
        Between(Some(l.id), Some(r.id)), Between(l.flavor, r.flavor), Between(l.source, r.source),
        Between(l.reference, r.reference), Between(l.commit, r.commit), Between(l.package, r.package), kconfig)
  }

  predicate KernelSame<S(==)>(c: KernelChanges<S>) {
    && c.id.None? && c.flavor.None? && c.source.None? && c.reference.None? && c.commit.None? && c.package.None?
    && Quiet(IsEmpty, c.kconfig)
  }

  function MirrorKernel<S>(flip: S -> S): KernelChanges<S> -> KernelChanges<S> {
    (c: KernelChanges<S>) =>
      KernelChanges(
        MirrorOption(c.id), MirrorOption(c.flavor), MirrorOption(c.source), MirrorOption(c.reference),
        MirrorOption(c.commit), MirrorOption(c.package), MapSection(s => Mapped(flip, s), c.kconfig))
  }

  function Listing(c: Option<Change>): seq<Change> {
    if c.Some? then [c.value] else []
  }

  function BlobDelta(l: BlobFacts, r: BlobFacts): seq<Change> {
    Listing(Between(Some(l.atf), Some(r.atf))) + Listing(Between(Some(l.tpl), Some(r.tpl))) + Listing(Between(l.bl32, r.bl32))
  }

  function MirrorBlobs(c: seq<Change>): seq<Change> {
    Mapped(MirrorChange, c)
  }

  datatype ArchiveChange = ArchiveChange(mirror: string, release: Change)

  datatype BuilderChanges = BuilderChanges(
    version: Option<Change>, commit: Option<Change>, dirty: Option<Change>, configCommit: Option<Change>, configDirty: Option<Change>,
    ferrodayCage: Option<Change>, hostArch: Option<Change>, targetArch: Option<Change>, crossCompile: Option<Change>,
    archives: seq<ArchiveChange>)

  function YesNo(b: bool): string {
    if b then "yes" else "no"
  }

  function Mirror(a: Archive): string {
    a.mirror
  }

  function ReleaseOn(s: seq<Archive>, mirror: string): Option<string> {
    var a := First(Mirror, s, mirror);
    if a.Some? then Some(a.value.release) else None
  }

  function ArchiveLine(mirror: string, l: Option<string>, r: Option<string>): seq<ArchiveChange> {
    var c := Between(l, r);
    if c.Some? then [ArchiveChange(mirror, c.value)] else []
  }

  function ArchivesOf(l: seq<Archive>, r: seq<Archive>): string -> seq<ArchiveChange> {
    mirror => ArchiveLine(mirror, ReleaseOn(l, mirror), ReleaseOn(r, mirror))
  }

  function ArchiveDelta(l: seq<Archive>, r: seq<Archive>): seq<ArchiveChange> {
    Across(ArchivesOf(l, r), Axes(Mirror, l), Axes(Mirror, r))
  }

  function MirrorArchive(c: ArchiveChange): ArchiveChange {
    ArchiveChange(c.mirror, MirrorChange(c.release))
  }

  function BuilderDelta(l: BuilderFacts, r: BuilderFacts): BuilderChanges {
    BuilderChanges(
      Between(Some(l.version), Some(r.version)), Between(l.commit, r.commit),
      Between(Some(YesNo(l.dirty)), Some(YesNo(r.dirty))), Between(l.configCommit, r.configCommit),
      Between(Some(YesNo(l.configDirty)), Some(YesNo(r.configDirty))),
      Between(Some(l.ferrodayCage), Some(r.ferrodayCage)), Between(Some(l.hostArch), Some(r.hostArch)),
      Between(Some(l.targetArch), Some(r.targetArch)), Between(Some(l.crossCompile), Some(r.crossCompile)),
      ArchiveDelta(l.archives, r.archives))
  }

  predicate BuilderSame(c: BuilderChanges) {
    && c.version.None? && c.commit.None? && c.dirty.None? && c.configCommit.None? && c.configDirty.None?
    && c.ferrodayCage.None? && c.hostArch.None? && c.targetArch.None? && c.crossCompile.None? && c.archives == []
  }

  function MirrorBuilder(c: BuilderChanges): BuilderChanges {
    BuilderChanges(
      MirrorOption(c.version), MirrorOption(c.commit), MirrorOption(c.dirty), MirrorOption(c.configCommit), MirrorOption(c.configDirty),
      MirrorOption(c.ferrodayCage), MirrorOption(c.hostArch), MirrorOption(c.targetArch), MirrorOption(c.crossCompile),
      Mapped(MirrorArchive, c.archives))
  }

  lemma ArchivesQuietWhen(l: seq<Archive>, r: seq<Archive>)
    ensures ArchiveDelta(l, r) == [] <==> forall mirror :: ReleaseOn(l, mirror) == ReleaseOn(r, mirror)
  {
    var f := ArchivesOf(l, r);
    forall mirror ensures f(mirror) == [] <==> ReleaseOn(l, mirror) == ReleaseOn(r, mirror) {
    }
    forall mirror | mirror !in Axes(Mirror, l) && mirror !in Axes(Mirror, r) ensures f(mirror) == [] {
      NothingOn(Mirror, l, mirror);
      NothingOn(Mirror, r, mirror);
    }
    AcrossSilent(f, Axes(Mirror, l), Axes(Mirror, r));
  }

  ghost predicate ArchivesAgree(l: seq<Archive>, r: seq<Archive>) {
    forall mirror :: ReleaseOn(l, mirror) == ReleaseOn(r, mirror)
  }

  ghost predicate BuildersAgree(l: BuilderFacts, r: BuilderFacts) {
    l.(archives := []) == r.(archives := []) && ArchivesAgree(l.archives, r.archives)
  }

  /** The builder section says nothing exactly when everything but the order of the
      archives agrees. */
  lemma BuilderQuietWhen(l: BuilderFacts, r: BuilderFacts)
    ensures BuilderSame(BuilderDelta(l, r)) <==> BuildersAgree(l, r)
  {
    ArchivesQuietWhen(l.archives, r.archives);
    YesIsNotNo();
  }

  lemma YesIsNotNo()
    ensures YesNo(true) != YesNo(false)
  {
    assert |YesNo(true)| == 3;
  }

  lemma ArchivesMirrored(l: seq<Archive>, r: seq<Archive>)
    ensures ArchiveDelta(r, l) == Mapped(MirrorArchive, ArchiveDelta(l, r))
  {
    forall mirror ensures ArchivesOf(r, l)(mirror) == Mapped(MirrorArchive, ArchivesOf(l, r)(mirror)) {
    }
    AcrossMirrored(MirrorArchive, ArchivesOf(l, r), ArchivesOf(r, l), Axes(Mirror, l), Axes(Mirror, r));
  }

  // ----- The report -----

  datatype Report<+S, +D> = Report(
    left: string, right: string,
    packages: Section<PackageChanges>,
    kernel: Section<KernelChanges<S>>,
    patches: Section<seq<PatchAxisChange>>,
    sources: Section<seq<SourceChange>>,
    blobs: Section<seq<Change>>,
    builder: Section<BuilderChanges>,
    files: Section<D>)

  /** How fragment sets and file manifests differ: their delta, the delta seen from the
      other side, and whether it is empty. */
  datatype Differ<!K(!new), !F(!new), !S, !D> = Differ(
    fragments: (K, K) -> seq<S>, flipSymbol: S -> S,
    files: (F, F) -> D, flipFiles: D -> D, filesSame: D -> bool)
  {
    ghost predicate Mirrors() {
      && (forall x, y :: fragments(y, x) == Mapped(flipSymbol, fragments(x, y)))
      && (forall x, y :: files(y, x) == flipFiles(files(x, y)))
    }

    ghost predicate Reflexive() {
      (forall x :: fragments(x, x) == []) && (forall x :: filesSame(files(x, x)))
    }
  }

  function PackageSection<K, F>(l: Side<K, F>, r: Side<K, F>): Section<PackageChanges> {
    SectionOf(l.title, r.title, l.packages, r.packages, "a solved package manifest", PackageDelta)
  }

  function KernelSection<K(!new), F(!new), S, D>(l: Side<K, F>, r: Side<K, F>, d: Differ<K, F, S, D>): Section<KernelChanges<S>> {
    var kconfig := SectionOf(l.title, r.title, l.kconfig, r.kconfig, "a kernel fragment set", d.fragments);
    SectionOf(l.title, r.title, l.kernel, r.kernel, "a kernel pin", KernelDelta(kconfig))
  }

  function BlobSection<K, F>(l: Side<K, F>, r: Side<K, F>): Section<seq<Change>> {
    SectionOf(l.title, r.title, l.blobs, r.blobs, "rkbin blob pins", BlobDelta)
  }

  function BuilderSection<K, F>(l: Side<K, F>, r: Side<K, F>): Section<BuilderChanges> {
    SectionOf(l.title, r.title, l.builder, r.builder, "a provenance manifest", BuilderDelta)
  }

  function FileSection<K(!new), F(!new), S, D>(l: Side<K, F>, r: Side<K, F>, d: Differ<K, F, S, D>): Section<D> {
    SectionOf(l.title, r.title, l.files, r.files, "a rootfs file manifest", d.files)
  }

  function Compare<K(!new), F(!new), S, D>(left: Side<K, F>, right: Side<K, F>, d: Differ<K, F, S, D>): Report<S, D> {
    Report(
      left.title, right.title, PackageSection(left, right), KernelSection(left, right, d),
      PatchDelta(left.patches, right.patches), SourceDelta(left.sources, right.sources),
      BlobSection(left, right), BuilderSection(left, right), FileSection(left, right, d))
  }

  predicate ReportQuiet<S(==), D>(rep: Report<S, D>, filesSame: D -> bool) {
    && Quiet(NoPackageMoved, rep.packages)
    && Quiet(KernelSame, rep.kernel)
    && Quiet(IsEmpty, rep.patches)
    && Quiet(IsEmpty, rep.sources)
    && Quiet(IsEmpty, rep.blobs)
    && Quiet(BuilderSame, rep.builder)
    && Quiet(filesSame, rep.files)
  }

  /** Where both sides say something they say the same. */
  ghost predicate Agree<K(!new), F(!new), S, D>(l: Side<K, F>, r: Side<K, F>, d: Differ<K, F, S, D>) {
    && (l.packages.Some? && r.packages.Some? ==> PackagesAgree(l.packages.value, r.packages.value))
    && (l.kernel.Some? && r.kernel.Some? ==>
          l.kernel == r.kernel && (l.kconfig.Some? && r.kconfig.Some? ==> d.fragments(l.kconfig.value, r.kconfig.value) == []))
    && (forall axis :: PatchesAgree(l.patches, r.patches, axis))
    && (forall axis :: SourcesAgree(l.sources, r.sources, axis))
    && (l.blobs.Some? && r.blobs.Some? ==> l.blobs == r.blobs)
    && (l.builder.Some? && r.builder.Some? ==> BuildersAgree(l.builder.value, r.builder.value))
    && (l.files.Some? && r.files.Some? ==> d.filesSame(d.files(l.files.value, r.files.value)))
  }

  lemma KernelQuietWhen<K(!new), F(!new), S, D>(l: Side<K, F>, r: Side<K, F>, d: Differ<K, F, S, D>)
    ensures Quiet(KernelSame, KernelSection(l, r, d)) <==>
            (l.kernel.Some? && r.kernel.Some? ==>
               l.kernel == r.kernel && (l.kconfig.Some? && r.kconfig.Some? ==> d.fragments(l.kconfig.value, r.kconfig.value) == []))
  {
  }

  lemma BlobsQuietWhen<K, F>(l: Side<K, F>, r: Side<K, F>)
    ensures Quiet(IsEmpty, BlobSection(l, r)) <==> (l.blobs.Some? && r.blobs.Some? ==> l.blobs == r.blobs)
  {
  }

  lemma SectionQuiet<T, U>(left: string, right: string, l: Option<T>, r: Option<T>, what: string,
                           diff: (T, T) -> U, empty: U -> bool, agree: bool)
    requires l.Some? && r.Some? ==> (empty(diff(l.value, r.value)) <==> agree)
    ensures Quiet(empty, SectionOf(left, right, l, r, what, diff)) <==> (l.Some? && r.Some? ==> agree)
  {
  }

  lemma PackageSectionQuietWhen<K, F>(l: Side<K, F>, r: Side<K, F>)
    ensures Quiet(NoPackageMoved, PackageSection(l, r)) <==>
            (l.packages.Some? && r.packages.Some? ==> PackagesAgree(l.packages.value, r.packages.value))
  {
    if l.packages.Some? && r.packages.Some? {
      PackagesQuietWhen(l.packages.value, r.packages.value);
      SectionQuiet(l.title, r.title, l.packages, r.packages, "a solved package manifest", PackageDelta, NoPackageMoved,
                   PackagesAgree(l.packages.value, r.packages.value));
    }
  }

  lemma BuilderSectionQuietWhen<K, F>(l: Side<K, F>, r: Side<K, F>)
    ensures Quiet(BuilderSame, BuilderSection(l, r)) <==>
            (l.builder.Some? && r.builder.Some? ==> BuildersAgree(l.builder.value, r.builder.value))
  {
    if l.builder.Some? && r.builder.Some? {
      BuilderQuietWhen(l.builder.value, r.builder.value);
    }
  }

  /** The report has nothing to say exactly when the two sides agree: on everything both
      record, silence inside a record included, but for the order of a patch series. */
  lemma ReportQuietWhen<K(!new), F(!new), S, D>(l: Side<K, F>, r: Side<K, F>, d: Differ<K, F, S, D>)
    ensures ReportQuiet(Compare(l, r, d), d.filesSame) <==> Agree(l, r, d)
  {
    PackageSectionQuietWhen(l, r);
    BuilderSectionQuietWhen(l, r);
    KernelQuietWhen(l, r, d);
    PatchesQuietWhen(l.patches, r.patches);
    SourcesQuietWhen(l.sources, r.sources);
    BlobsQuietWhen(l, r);
  }

  /** A document that states a kernel's flavor beside one that does not is reported, though
      silence claims nothing about the flavor. */
  lemma GainedFlavorIsReported<K(!new), F(!new), S, D>(x: Side<K, F>, flavor: string, d: Differ<K, F, S, D>)
    requires x.kernel.Some? && x.kernel.value.flavor.None?
    ensures !ReportQuiet(Compare(x, x.(kernel := Some(x.kernel.value.(flavor := Some(flavor)))), d), d.filesSame)
  {
    ReportQuietWhen(x, x.(kernel := Some(x.kernel.value.(flavor := Some(flavor)))), d);
  }

  lemma AgreesWithItself<K(!new), F(!new), S, D>(x: Side<K, F>, y: Side<K, F>, d: Differ<K, F, S, D>)
    requires d.Reflexive()
    requires x.kernel == y.kernel && x.patches == y.patches && x.sources == y.sources && x.blobs == y.blobs
    requires x.packages == y.packages && x.kconfig == y.kconfig && x.builder == y.builder && x.files == y.files
    ensures Agree(x, y, d)
  {
    forall axis ensures PatchesAgree(x.patches, y.patches, axis) && SourcesAgree(x.sources, y.sources, axis) {
    }
  }

  /** Comparing a build point with itself has nothing to report. */
  lemma SelfComparisonIsQuiet<K(!new), F(!new), S, D>(x: Side<K, F>, title: string, d: Differ<K, F, S, D>)
    requires d.Reflexive()
    ensures ReportQuiet(Compare(x, x.(title := title), d), d.filesSame)
  {
    AgreesWithItself(x, x.(title := title), d);
    ReportQuietWhen(x, x.(title := title), d);
  }

  /** The report read from the other side. */
  function MirrorReport<K(!new), F(!new), S, D>(rep: Report<S, D>, d: Differ<K, F, S, D>): Report<S, D> {
    Report(
      rep.right, rep.left,
      MapSection(MirrorPackages, rep.packages),
      MapSection(MirrorKernel(d.flipSymbol), rep.kernel),
      MapSection(MirrorPatches, rep.patches),
      MapSection(MirrorSources, rep.sources),
      MapSection(MirrorBlobs, rep.blobs),
      MapSection(MirrorBuilder, rep.builder),
      MapSection(d.flipFiles, rep.files))
  }

  function BlurredReport<S, D>(rep: Report<S, D>): Report<S, D> {
    rep.(packages := MapSection(Blurred, rep.packages))
  }

  lemma SectionMirrored<T, U>(left: string, right: string, l: Option<T>, r: Option<T>, what: string,
                              there: (T, T) -> U, back: (T, T) -> U, flip: U -> U)
    requires l.Some? && r.Some? ==> back(r.value, l.value) == flip(there(l.value, r.value))
    ensures SectionOf(right, left, r, l, what, back) == MapSection(flip, SectionOf(left, right, l, r, what, there))
  {
  }

  lemma PackageSectionMirrored<K, F>(l: Side<K, F>, r: Side<K, F>)
    ensures MapSection(Blurred, PackageSection(r, l)) == MapSection(MirrorPackages, MapSection(Blurred, PackageSection(l, r)))
  {
    if l.packages.Some? && r.packages.Some? {
      PackagesMirrored(l.packages.value, r.packages.value);
    }
  }

  lemma KernelSectionMirrored<K(!new), F(!new), S, D>(l: Side<K, F>, r: Side<K, F>, d: Differ<K, F, S, D>)
    requires d.Mirrors()
    ensures KernelSection(r, l, d) == MapSection(MirrorKernel(d.flipSymbol), KernelSection(l, r, d))
  {
  }

  lemma MappedConcat<T, U>(f: T -> U, a: seq<T>, b: seq<T>)
    ensures Mapped(f, a + b) == Mapped(f, a) + Mapped(f, b)
  {
  }

  lemma BlobDeltaMirrored(l: BlobFacts, r: BlobFacts)
    ensures BlobDelta(r, l) == MirrorBlobs(BlobDelta(l, r))
  {
    var (x, y, z) := (Listing(Between(Some(l.atf), Some(r.atf))), Listing(Between(Some(l.tpl), Some(r.tpl))), Listing(Between(l.bl32, r.bl32)));
    MappedConcat(MirrorChange, x, y);
    MappedConcat(MirrorChange, x + y, z);
    ListingMirrored(Some(l.atf), Some(r.atf));
    ListingMirrored(Some(l.tpl), Some(r.tpl));
    ListingMirrored(l.bl32, r.bl32);
  }

  lemma ListingMirrored(was: Option<string>, now: Option<string>)
    ensures Listing(Between(now, was)) == Mapped(MirrorChange, Listing(Between(was, now)))
  {
  }

  lemma BlobSectionMirrored<K, F>(l: Side<K, F>, r: Side<K, F>)
    ensures BlobSection(r, l) == MapSection(MirrorBlobs, BlobSection(l, r))
  {
    if l.blobs.Some? && r.blobs.Some? {
      BlobDeltaMirrored(l.blobs.value, r.blobs.value);
    }
    SectionMirrored(l.title, r.title, l.blobs, r.blobs, "rkbin blob pins", BlobDelta, BlobDelta, MirrorBlobs);
  }

  lemma BuilderDeltaMirrored(l: BuilderFacts, r: BuilderFacts)
    ensures BuilderDelta(r, l) == MirrorBuilder(BuilderDelta(l, r))
  {
    ArchivesMirrored(l.archives, r.archives);
  }

  lemma BuilderSectionMirrored<K, F>(l: Side<K, F>, r: Side<K, F>)
    ensures BuilderSection(r, l) == MapSection(MirrorBuilder, BuilderSection(l, r))
  {
    if l.builder.Some? && r.builder.Some? {
      BuilderDeltaMirrored(l.builder.value, r.builder.value);
    }
    SectionMirrored(l.title, r.title, l.builder, r.builder, "a provenance manifest", BuilderDelta, BuilderDelta, MirrorBuilder);
  }

  /** Swapping the sides gives the same report seen from the other side, but for the
      architecture a rebuilt package is listed with. */
  lemma ComparisonMirrored<K(!new), F(!new), S, D>(l: Side<K, F>, r: Side<K, F>, d: Differ<K, F, S, D>)
    requires d.Mirrors()
    ensures BlurredReport(Compare(r, l, d)) == MirrorReport(BlurredReport(Compare(l, r, d)), d)
  {
    PackageSectionMirrored(l, r);
    KernelSectionMirrored(l, r, d);
    PatchesMirrored(l.patches, r.patches);
    SourcesMirrored(l.sources, r.sources);
    BlobSectionMirrored(l, r);
    BuilderSectionMirrored(l, r);
    SectionMirrored(l.title, r.title, l.files, r.files, "a rootfs file manifest", d.files, d.files, d.flipFiles);
  }

  // ----- Who is silent -----

  /** A section is there exactly when both sides record it, and else says who does not: both,
      or the one by its title. */
  predicate TellsWhoIsSilent<T>(s: Section<T>, left: string, right: string, hasLeft: bool, hasRight: bool) {
    && (s.Compared? <==> hasLeft && hasRight)
    && (!hasLeft && !hasRight ==> s.Unavailable? && s.why.Neither?)
    && (!hasLeft && hasRight ==> s.Unavailable? && s.why.OneSide? && s.why.title == left)
    && (hasLeft && !hasRight ==> s.Unavailable? && s.why.OneSide? && s.why.title == right)
  }

  /** The sections of patches and of sources are there exactly when some side lists an axis. */
  lemma EmptyAxesAreSilent(l: seq<PatchAxis>, r: seq<PatchAxis>, m: seq<SourcePin>, s: seq<SourcePin>)
    ensures PatchDelta(l, r).Compared? <==> l + r != []
    ensures PatchDelta(l, r).Unavailable? ==> PatchDelta(l, r).why.Neither?
    ensures SourceDelta(m, s).Compared? <==> m + s != []
    ensures SourceDelta(m, s).Unavailable? ==> SourceDelta(m, s).why.Neither?
  {
  }

  /** Every section of a report, and the fragments within the kernel's, tell who is silent. */
  lemma SilentSidesAreNamed<K(!new), F(!new), S, D>(l: Side<K, F>, r: Side<K, F>, d: Differ<K, F, S, D>)
    ensures var rep := Compare(l, r, d);
            && rep.left == l.title && rep.right == r.title
            && TellsWhoIsSilent(rep.packages, l.title, r.title, l.packages.Some?, r.packages.Some?)
            && TellsWhoIsSilent(rep.kernel, l.title, r.title, l.kernel.Some?, r.kernel.Some?)
            && TellsWhoIsSilent(rep.blobs, l.title, r.title, l.blobs.Some?, r.blobs.Some?)
            && TellsWhoIsSilent(rep.builder, l.title, r.title, l.builder.Some?, r.builder.Some?)
            && TellsWhoIsSilent(rep.files, l.title, r.title, l.files.Some?, r.files.Some?)
            && (rep.kernel.Compared? ==>
                  TellsWhoIsSilent(rep.kernel.changes.kconfig, l.title, r.title, l.kconfig.Some?, r.kconfig.Some?))
  {
  }
}
