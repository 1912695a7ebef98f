/** What the sections of a comparison are worth to a reader, crates/core/src/diff.rs: from
    the left side and the changes the right side can be told. */
module ChangesFollowed {
  import opened BuildComparison
  import opened BuildFacts
  import opened NameWalks
  import opened Wrappers

  // ----- The kernel -----

  function FollowKernel<S>(k: KernelFacts, c: KernelChanges<S>): KernelFacts {
    var id := Followed(Some(k.id), c.id);
    KernelFacts(
      if id.Some? then id.value else "",
      Followed(k.flavor, c.flavor), Followed(k.source, c.source), Followed(k.reference, c.reference),
      Followed(k.commit, c.commit), Followed(k.package, c.package))
  }

  /** Following the kernel section from the left kernel gives the right one. */
  lemma KernelChangesReconstruct<S>(l: KernelFacts, r: KernelFacts, kconfig: Section<seq<S>>)
    ensures FollowKernel(l, KernelDelta(kconfig)(l, r)) == r
  {
    BetweenMeans(Some(l.id), Some(r.id));
    BetweenMeans(l.flavor, r.flavor);
    BetweenMeans(l.source, r.source);
    BetweenMeans(l.reference, r.reference);
    BetweenMeans(l.commit, r.commit);
    BetweenMeans(l.package, r.package);
  }

  // ----- Sources -----

  function SourceLineName(c: SourceChange): string {
    c.axis
  }

  /** A pin, moved as its line says; an axis without a line stays. */
  function FollowSource(pin: SourcePin, line: Option<SourceChange>): SourcePin {
    if line.None? then pin
    else SourcePin(pin.axis, Followed(pin.reference, line.value.reference), Followed(pin.commit, line.value.commit))
  }

  lemma SourceLineFollows(axis: string, a: SourcePin, b: SourcePin)
    requires a.axis == b.axis
    ensures var lines := SourceLine(axis, a, b);
            FollowSource(a, if lines == [] then None else Some(lines[0])) == b
  {
    BetweenMeans(a.reference, b.reference);
    BetweenMeans(a.commit, b.commit);
  }

  lemma SourceOfAxis(s: seq<SourcePin>, axis: string)
    ensures SourceOn(s, axis).axis == axis
  {
    if s != [] && s[0].axis != axis {
      SourceOfAxis(s[1..], axis);
    }
  }

  /** The line of an axis leads from its left pin to its right one, an axis that came or
      went included. */
  lemma SourceChangesReconstruct(l: seq<SourcePin>, r: seq<SourcePin>, axis: string)
    requires SourceDelta(l, r).Compared?
    ensures FollowSource(SourceOn(l, axis), First(SourceLineName, SourceDelta(l, r).changes, axis)) == SourceOn(r, axis)
  {
    var f := SourcesOf(l, r);
    SourcesAgreeMeans(l, r, axis);
    SourceLineMeans(axis, SourceOn(l, axis), SourceOn(r, axis));
    FirstAcross(f, SourceLineName, Axes(SourceAxisName, l), Axes(SourceAxisName, r), axis);
    SourceOfAxis(l, axis);
    SourceOfAxis(r, axis);
    SourceLineFollows(axis, SourceOn(l, axis), SourceOn(r, axis));
  }

  // ----- Patches -----

  function PatchLineName(c: PatchAxisChange): string {
    c.axis
  }

  function SetOf(s: seq<string>): set<string> {
    set x | x in s
  }

  /** What an axis applies, as far as a comparison tells: which series, and the pin. */
  datatype Applied = Applied(series: set<string>, reference: Option<string>, commit: Option<string>)

  function AppliedBy(p: PatchAxis): Applied {
    Applied(SetOf(p.series), p.reference, p.commit)
  }

  function FollowPatches(a: Applied, line: Option<PatchAxisChange>): Applied {
    if line.None? then a
    else
      Applied(a.series - SetOf(line.value.seriesRemoved) + SetOf(line.value.seriesAdded),
              Followed(a.reference, line.value.reference), Followed(a.commit, line.value.commit))
  }

  lemma {:induction false} NotInMeans(s: seq<string>, other: seq<string>, x: string)
    ensures x in NotIn(s, other) <==> x in s && x !in other
  {
    if s != [] {
      NotInMeans(s[1..], other, x);
      assert s == [s[0]] + s[1..];
    }
  }

  lemma SeriesFollow(a: seq<string>, b: seq<string>)
    ensures SetOf(a) - SetOf(NotIn(a, b)) + SetOf(NotIn(b, a)) == SetOf(b)
  {
    forall x ensures (x in NotIn(a, b) <==> x in a && x !in b) && (x in NotIn(b, a) <==> x in b && x !in a) {
      NotInMeans(a, b, x);
      NotInMeans(b, a, x);
    }
  }

  lemma PatchLineFollows(axis: string, a: PatchAxis, b: PatchAxis)
    ensures var lines := PatchLine(axis, a, b);
            FollowPatches(AppliedBy(a), if lines == [] then None else Some(lines[0])) == AppliedBy(b)
  {
    SeriesFollow(a.series, b.series);
    PatchLineMeans(axis, a, b);
    BetweenMeans(a.reference, b.reference);
    BetweenMeans(a.commit, b.commit);
    if PatchLine(axis, a, b) == [] {
      assert SetOf(a.series) == SetOf(b.series);
    }
  }

  /** The line of an axis leads from what the left side applies to what the right side does,
      but for the order of the series. */
  lemma PatchChangesReconstruct(l: seq<PatchAxis>, r: seq<PatchAxis>, axis: string)
    requires PatchDelta(l, r).Compared?
    ensures FollowPatches(AppliedBy(PatchesOn(l, axis)), First(PatchLineName, PatchDelta(l, r).changes, axis))
         == AppliedBy(PatchesOn(r, axis))
  {
    var f := PatchesOf(l, r);
    PatchesAgreeMeans(l, r, axis);
    FirstAcross(f, PatchLineName, Axes(PatchAxisName, l), Axes(PatchAxisName, r), axis);
    PatchLineFollows(axis, PatchesOn(l, axis), PatchesOn(r, axis));
  }

  // ----- The builder -----

  function ArchiveLineName(c: ArchiveChange): string {
    c.mirror
  }

  function FollowText(was: string, c: Option<Change>): string {
    var now := Followed(Some(was), c);
    if now.Some? then now.value else ""
  }

  function FollowFlag(was: bool, c: Option<Change>): bool {
    FollowText(YesNo(was), c) == "yes"
  }

  /** Everything about a builder but its archives. */
  function FollowBuilder(b: BuilderFacts, c: BuilderChanges): BuilderFacts {
    BuilderFacts(
      FollowText(b.version, c.version), Followed(b.commit, c.commit), FollowFlag(b.dirty, c.dirty),
      Followed(b.configCommit, c.configCommit), FollowFlag(b.configDirty, c.configDirty),
      FollowText(b.ferrodayCage, c.ferrodayCage), FollowText(b.hostArch, c.hostArch),
      FollowText(b.targetArch, c.targetArch), FollowText(b.crossCompile, c.crossCompile), [])
  }

  lemma TextFollows(was: string, now: string)
    ensures FollowText(was, Between(Some(was), Some(now))) == now
  {
    BetweenMeans(Some(was), Some(now));
  }

  lemma FlagFollows(was: bool, now: bool)
    ensures FollowFlag(was, Between(Some(YesNo(was)), Some(YesNo(now)))) == now
  {
    TextFollows(YesNo(was), YesNo(now));
    YesIsNotNo();
  }

  lemma ArchiveLineFollows(mirror: string, l: Option<string>, r: Option<string>)
    ensures var lines := ArchiveLine(mirror, l, r);
            Followed(l, if lines == [] then None else Some(lines[0].release)) == r
  {
    BetweenMeans(l, r);
  }

  function ReleaseChange(line: Option<ArchiveChange>): Option<Change> {
    if line.None? then None else Some(line.value.release)
  }

  /** Following the builder section gives the right builder, and for every mirror the release
      the right side saw there. */
  lemma BuilderChangesReconstruct(l: BuilderFacts, r: BuilderFacts, mirror: string)
    ensures FollowBuilder(l, BuilderDelta(l, r)) == r.(archives := [])
    ensures Followed(ReleaseOn(l.archives, mirror), ReleaseChange(First(ArchiveLineName, BuilderDelta(l, r).archives, mirror)))
         == ReleaseOn(r.archives, mirror)
  {
    BuilderFactsFollow(l, r);
    ArchivesFollow(l.archives, r.archives, mirror);
  }

  lemma BuilderFactsFollow(l: BuilderFacts, r: BuilderFacts)
    ensures FollowBuilder(l, BuilderDelta(l, r)) == r.(archives := [])
  {
    TextFollows(l.version, r.version);
    BetweenMeans(l.commit, r.commit);
    FlagFollows(l.dirty, r.dirty);
    BetweenMeans(l.configCommit, r.configCommit);
    FlagFollows(l.configDirty, r.configDirty);
    TextFollows(l.ferrodayCage, r.ferrodayCage);
    TextFollows(l.hostArch, r.hostArch);
    TextFollows(l.targetArch, r.targetArch);
    TextFollows(l.crossCompile, r.crossCompile);
  }

  lemma ArchivesFollow(l: seq<Archive>, r: seq<Archive>, mirror: string)
    ensures Followed(ReleaseOn(l, mirror), ReleaseChange(First(ArchiveLineName, ArchiveDelta(l, r), mirror))) == ReleaseOn(r, mirror)
  {
    var f := ArchivesOf(l, r);
    ArchiveLineFollows(mirror, ReleaseOn(l, mirror), ReleaseOn(r, mirror));
    NothingOn(Mirror, l, mirror);
    NothingOn(Mirror, r, mirror);
    FirstAcross(f, ArchiveLineName, Axes(Mirror, l), Axes(Mirror, r), mirror);
  }

  // ----- Blobs -----

  /** The first change that starts from a value: the lines do not say of which blob they are. */
  function ChangeFrom(was: Option<string>, c: seq<Change>): Option<Change> {
    if c == [] then None else if c[0].was == was then Some(c[0]) else ChangeFrom(was, c[1..])
  }

  function FollowBlobs(b: BlobFacts, c: seq<Change>): BlobFacts {
    BlobFacts(FollowText(b.atf, ChangeFrom(Some(b.atf), c)), FollowText(b.tpl, ChangeFrom(Some(b.tpl), c)),
              Followed(b.bl32, ChangeFrom(b.bl32, c)))
  }

  /** No two pins of one side are the same text. */
  predicate PinsDiffer(b: BlobFacts) {
    b.atf != b.tpl && b.bl32 != Some(b.atf) && b.bl32 != Some(b.tpl)
  }

  lemma ChangeFromListing(was: Option<string>, from: Option<string>, now: Option<string>, rest: seq<Change>)
    ensures ChangeFrom(was, Listing(Between(from, now)) + rest)
         == if from == was && from != now then Some(Change(from, now)) else ChangeFrom(was, rest)
  {
    if from != now {
      assert ([Change(from, now)] + rest)[1..] == rest;
    } else {
      assert [] + rest == rest;
    }
  }

  /** Where the left pins differ from one another, following the blob section gives the
      right pins. */
  lemma BlobChangesReconstruct(l: BlobFacts, r: BlobFacts)
    requires PinsDiffer(l)
    ensures FollowBlobs(l, BlobDelta(l, r)) == r
  {
    forall was ensures ChangeFrom(was, BlobDelta(l, r))
      == if Some(l.atf) == was && l.atf != r.atf then Some(Change(was, Some(r.atf)))
         else if Some(l.tpl) == was && l.tpl != r.tpl then Some(Change(was, Some(r.tpl)))
         else if l.bl32 == was && l.bl32 != r.bl32 then Some(Change(was, r.bl32)) else None
    {
      ChangeFromDelta(l, r, was);
    }
  }

  lemma ChangeFromDelta(l: BlobFacts, r: BlobFacts, was: Option<string>)
    ensures ChangeFrom(was, BlobDelta(l, r))
         == if Some(l.atf) == was && l.atf != r.atf then Some(Change(was, Some(r.atf)))
            else if Some(l.tpl) == was && l.tpl != r.tpl then Some(Change(was, Some(r.tpl)))
            else if l.bl32 == was && l.bl32 != r.bl32 then Some(Change(was, r.bl32)) else None
  {
    var (x, y, z) := (Listing(Between(Some(l.atf), Some(r.atf))), Listing(Between(Some(l.tpl), Some(r.tpl))), Listing(Between(l.bl32, r.bl32)));
    assert (x + y) + z == x + (y + (z + []));
    ChangeFromListing(was, Some(l.atf), Some(r.atf), y + (z + []));
    ChangeFromListing(was, Some(l.tpl), Some(r.tpl), z + []);
    ChangeFromListing(was, l.bl32, r.bl32, []);
  }

  ghost predicate BlobsAmbiguous(l: BlobFacts) {
    exists r, other :: r != other && BlobDelta(l, r) == BlobDelta(l, other)
  }

  /** Exactly then: where two left pins are the same text, two right sides have the same
      changes. */
  lemma BlobsAmbiguousWhen(l: BlobFacts)
    ensures BlobsAmbiguous(l) <==> !PinsDiffer(l)
  {
    if PinsDiffer(l) {
      forall r, other | BlobDelta(l, r) == BlobDelta(l, other) ensures r == other {
        BlobChangesReconstruct(l, r);
        BlobChangesReconstruct(l, other);
      }
    } else {
      BlobsConfused(l);
    }
  }

  lemma BlobsConfused(l: BlobFacts)
    requires !PinsDiffer(l)
    ensures BlobsAmbiguous(l)
  {
    var (x, y) := (l.atf + "!", l.tpl + "!");
    var (a, b, c) := (l.(atf := x), l.(tpl := y), l.(bl32 := if l.bl32.Some? then Some(l.bl32.value + "!") else None));
    assert x != l.atf && y != l.tpl;
    if l.atf == l.tpl {
      assert BlobDelta(l, a) == BlobDelta(l, b) == [Change(Some(l.atf), Some(x))] && a != b;
    } else if l.bl32 == Some(l.atf) {
      assert BlobDelta(l, a) == BlobDelta(l, c) == [Change(Some(l.atf), Some(x))] && a != c;
    } else {
      assert BlobDelta(l, b) == BlobDelta(l, c) == [Change(Some(l.tpl), Some(y))] && b != c;
    }
  }
}
