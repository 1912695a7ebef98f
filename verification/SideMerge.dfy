/** Folding two descriptions of one build point together, `Side::merge` of
    crates/core/src/diff.rs: the left one wins wherever it says anything. */
module SideMerge {
  import opened BuildFacts
  import opened Orders
  import opened Sorting
  import opened Text
  import opened Wrappers

  // ----- Lists keyed by an axis -----

  predicate HasAxis<T>(axis: T -> string, s: seq<T>, name: string) {
    exists i :: 0 <= i < |s| && axis(s[i]) == name
  }

  /** `a`, and then every element of `b` whose axis is not there yet. */
  function Pushed<T>(axis: T -> string, a: seq<T>, b: seq<T>): seq<T> {
    if b == [] then a
    else
      var before := Pushed(axis, a, b[..|b| - 1]);
      var last := b[|b| - 1];
      if HasAxis(axis, before, axis(last)) then before else before + [last]
  }

  function ByAxis<T>(axis: T -> string): (T, T) -> Ordering {
    (x, y) => CompareStrings(axis(x), axis(y))
  }

  function MergedAxes<T>(axis: T -> string, a: seq<T>, b: seq<T>): seq<T> {
    Sort(ByAxis(axis), Pushed(axis, a, b))
  }

  /** The loop that pushes, and the stable sort. */
  method MergeAxes<T>(axis: T -> string, a: seq<T>, b: seq<T>) returns (r: seq<T>)
    ensures r == MergedAxes(axis, a, b)
  {
    r := a;
    for i := 0 to |b|
      invariant r == Pushed(axis, a, b[..i])
    {
      FrontOfTake(b, i);
      if !HasAxis(axis, r, axis(b[i])) {
        r := r + [b[i]];
      }
    }
    assert b[..|b|] == b;
    r := Sort(ByAxis(axis), r);
  }

  lemma AxisOrder<T(!new)>(axis: T -> string)
    ensures TotalPreorder(ByAxis(axis))
  {
    var cmp := ByAxis(axis);
    forall x, y ensures cmp(y, x) == cmp(x, y).Flip() {
      CompareStringsTotal(axis(x), axis(y));
    }
    forall x, y, z ensures Chained(cmp(x, y), cmp(y, z), cmp(x, z)) {
      CompareStringsChained(axis(x), axis(y), axis(z));
    }
  }

  /** The elements of one axis after a merge: the left ones, or the first right one. */
  function Pick<T>(left: seq<T>, right: seq<T>): seq<T> {
    if left != [] || right == [] then left else [right[0]]
  }

  lemma HasAxisMeans<T(!new)>(axis: T -> string, k: T, s: seq<T>)
    ensures HasAxis(axis, s, axis(k)) <==> Ties(ByAxis(axis), k, s) != []
  {
    var ties := Ties(ByAxis(axis), k, s);
    TiesOf(ByAxis(axis), k, s);
    if ties != [] {
      assert ties[0] in s;
      CompareStringsTotal(axis(k), axis(ties[0]));
    }
    if HasAxis(axis, s, axis(k)) {
      var i :| 0 <= i < |s| && axis(s[i]) == axis(k);
      CompareStringsTotal(axis(k), axis(s[i]));
      assert s[i] in ties;
    }
  }

  lemma {:induction false} TiesConcat<T>(cmp: (T, T) -> Ordering, k: T, a: seq<T>, b: seq<T>)
    ensures Ties(cmp, k, a + b) == Ties(cmp, k, a) + Ties(cmp, k, b)
  {
    if a == [] {
      assert a + b == b;
    } else {
      FrontOfConcat(a, b);
      TiesConcat(cmp, k, a[1..], b);
    }
  }

  lemma {:induction false} PushedTies<T(!new)>(axis: T -> string, k: T, a: seq<T>, b: seq<T>)
    ensures Ties(ByAxis(axis), k, Pushed(axis, a, b)) == Pick(Ties(ByAxis(axis), k, a), Ties(ByAxis(axis), k, b))
  {
    var cmp := ByAxis(axis);
    if b != [] {
      var front, last := b[..|b| - 1], b[|b| - 1];
      var before := Pushed(axis, a, front);
      PushedTies(axis, k, a, front);
      assert b == front + [last];
      TiesConcat(cmp, k, front, [last]);
      TiesConcat(cmp, k, before, [last]);
      assert [last][1..] == [];
      if cmp(k, last) == Equal {
        CompareStringsTotal(axis(k), axis(last));
        HasAxisMeans(axis, k, before);
      }
    }
  }

  lemma MergedTies<T(!new)>(axis: T -> string, k: T, a: seq<T>, b: seq<T>)
    ensures Ties(ByAxis(axis), k, MergedAxes(axis, a, b)) == Pick(Ties(ByAxis(axis), k, a), Ties(ByAxis(axis), k, b))
  {
    AxisOrder(axis);
    SortStable(ByAxis(axis), k, Pushed(axis, a, b));
    PushedTies(axis, k, a, b);
  }

  /** Folding three lists together in either grouping gives one list. */
  lemma MergedAxesAssociative<T(!new)>(axis: T -> string, a: seq<T>, b: seq<T>, c: seq<T>)
    ensures MergedAxes(axis, MergedAxes(axis, a, b), c) == MergedAxes(axis, a, MergedAxes(axis, b, c))
  {
    var cmp := ByAxis(axis);
    var left, right := MergedAxes(axis, MergedAxes(axis, a, b), c), MergedAxes(axis, a, MergedAxes(axis, b, c));
    forall k ensures Ties(cmp, k, left) == Ties(cmp, k, right) {
      MergedTies(axis, k, a, b);
      MergedTies(axis, k, b, c);
      MergedTies(axis, k, MergedAxes(axis, a, b), c);
      MergedTies(axis, k, a, MergedAxes(axis, b, c));
    }
    AxisOrder(axis);
    SortSorted(cmp, Pushed(axis, MergedAxes(axis, a, b), c));
    SortSorted(cmp, Pushed(axis, a, MergedAxes(axis, b, c)));
    SortedByTies(cmp, left, right);
  }

  /** Folding in a list whose axes are all there adds nothing. */
  lemma {:induction false} PushedPresent<T>(axis: T -> string, a: seq<T>, b: seq<T>)
    requires forall i :: 0 <= i < |b| ==> HasAxis(axis, a, axis(b[i]))
    ensures Pushed(axis, a, b) == a
  {
    if b != [] {
      PushedPresent(axis, a, b[..|b| - 1]);
    }
  }

  /** Sorted lists stay as they are when nothing is added. */
  lemma SortOfSorted<T(!new)>(axis: T -> string, a: seq<T>)
    requires Sorted(ByAxis(axis), a)
    ensures Sort(ByAxis(axis), a) == a
  {
    AxisOrder(axis);
    SortSorted(ByAxis(axis), a);
    forall k ensures Ties(ByAxis(axis), k, Sort(ByAxis(axis), a)) == Ties(ByAxis(axis), k, a) {
      SortStable(ByAxis(axis), k, a);
    }
    SortedByTies(ByAxis(axis), Sort(ByAxis(axis), a), a);
  }

  // ----- Sides -----

  function MergedKernel(a: Option<KernelFacts>, b: Option<KernelFacts>): Option<KernelFacts> {
    if a.Some? && b.Some? then
      Some(KernelFacts(
        a.value.id,
        a.value.flavor.Or(b.value.flavor),
        a.value.source.Or(b.value.source),
        a.value.reference.Or(b.value.reference),
        a.value.commit.Or(b.value.commit),
        a.value.package.Or(b.value.package)))
    else a.Or(b)
  }

  function Merged<K, F>(a: Side<K, F>, b: Side<K, F>): Side<K, F> {
    Side(
      a.title,
      MergedKernel(a.kernel, b.kernel),
      MergedAxes(PatchAxisName, a.patches, b.patches),
      MergedAxes(SourceAxisName, a.sources, b.sources),
      a.blobs.Or(b.blobs),
      a.packages.Or(b.packages),
      a.kconfig.Or(b.kconfig),
      a.builder.Or(b.builder),
      a.files.Or(b.files))
  }

  method Merge<K, F>(a: Side<K, F>, b: Side<K, F>) returns (r: Side<K, F>)
    ensures r == Merged(a, b)
  {
    r := a;
    r := r.(kernel := MergedKernel(r.kernel, b.kernel));
    var patches := MergeAxes(PatchAxisName, r.patches, b.patches);
    r := r.(patches := patches);
    var sources := MergeAxes(SourceAxisName, r.sources, b.sources);
    r := r.(sources := sources);
    r := r.(blobs := r.blobs.Or(b.blobs), packages := r.packages.Or(b.packages), kconfig := r.kconfig.Or(b.kconfig));
    r := r.(builder := r.builder.Or(b.builder), files := r.files.Or(b.files));
  }

  lemma MergedKernelAssociative(a: Option<KernelFacts>, b: Option<KernelFacts>, c: Option<KernelFacts>)
    ensures MergedKernel(MergedKernel(a, b), c) == MergedKernel(a, MergedKernel(b, c))
  {
  }

  /** Merging three sides in either grouping gives one side. */
  lemma MergedAssociative<K, F>(a: Side<K, F>, b: Side<K, F>, c: Side<K, F>)
    ensures Merged(Merged(a, b), c) == Merged(a, Merged(b, c))
  {
    MergedKernelAssociative(a.kernel, b.kernel, c.kernel);
    MergedAxesAssociative(PatchAxisName, a.patches, b.patches, c.patches);
    MergedAxesAssociative(SourceAxisName, a.sources, b.sources, c.sources);
  }

  /** A side that says nothing: only its title. */
  function Silent<K, F>(title: string): Side<K, F> {
    Side(title, None, [], [], None, None, None, None, None)
  }

  function WithSortedAxes<K, F>(a: Side<K, F>): Side<K, F> {
    a.(patches := Sort(ByAxis(PatchAxisName), a.patches), sources := Sort(ByAxis(SourceAxisName), a.sources))
  }

  /** Whether one kernel answers nothing that another leaves open. */
  predicate SaysNoMore(k: KernelFacts, other: KernelFacts) {
    && (k.flavor.Some? ==> other.flavor.Some?) && (k.source.Some? ==> other.source.Some?)
    && (k.reference.Some? ==> other.reference.Some?) && (k.commit.Some? ==> other.commit.Some?)
    && (k.package.Some? ==> other.package.Some?)
  }

  /** A side that says only what the left one already says changes nothing but the order
      of the axes; a silent side is one of these. */
  lemma MergedWithKnown<K, F>(a: Side<K, F>, b: Side<K, F>)
    requires b.kernel.Some? ==> a.kernel.Some? && SaysNoMore(b.kernel.value, a.kernel.value)
    requires forall i :: 0 <= i < |b.patches| ==> HasAxis(PatchAxisName, a.patches, b.patches[i].axis)
    requires forall i :: 0 <= i < |b.sources| ==> HasAxis(SourceAxisName, a.sources, b.sources[i].axis)
    requires (b.blobs.Some? ==> a.blobs.Some?) && (b.packages.Some? ==> a.packages.Some?)
    requires (b.kconfig.Some? ==> a.kconfig.Some?) && (b.builder.Some? ==> a.builder.Some?) && (b.files.Some? ==> a.files.Some?)
    ensures Merged(a, b) == WithSortedAxes(a)
  {
    PushedPresent(PatchAxisName, a.patches, b.patches);
    PushedPresent(SourceAxisName, a.sources, b.sources);
  }

  /** The silent side is a right identity up to the order of the axes, and merging it in
      once is enough to order them. */
  lemma SilentIsRightIdentity<K, F>(a: Side<K, F>, title: string)
    ensures Merged(a, Silent(title)) == WithSortedAxes(a)
    ensures Merged(WithSortedAxes(a), Silent(title)) == WithSortedAxes(a)
  {
    MergedWithKnown(a, Silent(title));
    MergedWithKnown(WithSortedAxes(a), Silent(title));
    AxisOrder(PatchAxisName);
    AxisOrder(SourceAxisName);
    SortSorted(ByAxis(PatchAxisName), a.patches);
    SortSorted(ByAxis(SourceAxisName), a.sources);
    SortOfSorted(PatchAxisName, Sort(ByAxis(PatchAxisName), a.patches));
    SortOfSorted(SourceAxisName, Sort(ByAxis(SourceAxisName), a.sources));
  }

  datatype Question = Flavor | Source | Reference | Commit | PackageOf

  function AnswerTo(k: KernelFacts, q: Question): Option<string> {
    match q
    case Flavor => k.flavor
    case Source => k.source
    case Reference => k.reference
    case Commit => k.commit
    case PackageOf => k.package
  }

  /** What a kernel's facts say, question by question. */
  function Answers(k: KernelFacts): map<Question, string> {
    map q: Question | q in {Flavor, Source, Reference, Commit, PackageOf} && AnswerTo(k, q).Some? :: AnswerTo(k, q).value
  }

  lemma AnswersMerge(k: KernelFacts, other: KernelFacts, merged: KernelFacts)
    requires forall q :: AnswerTo(merged, q) == AnswerTo(k, q).Or(AnswerTo(other, q))
    ensures Answers(merged) == Answers(other) + Answers(k)
  {
  }

  /** For any two kernels: the merged one says everything the left one says, takes from the
      right one what the left one leaves open, and nothing else. */
  lemma MergedKernelAnswers(k: KernelFacts, other: KernelFacts)
    ensures var merged := MergedKernel(Some(k), Some(other)).value;
            merged.id == k.id && Answers(merged) == Answers(other) + Answers(k)
  {
    var merged := MergedKernel(Some(k), Some(other)).value;
    forall q ensures AnswerTo(merged, q) == AnswerTo(k, q).Or(AnswerTo(other, q)) {
    }
    AnswersMerge(k, other, merged);
  }

  /** One kernel alone stays as it is, and so does one that leaves nothing open. */
  lemma MergedKernelIsLeftBiased(k: KernelFacts, other: KernelFacts)
    ensures MergedKernel(Some(k), None) == MergedKernel(None, Some(k)) == Some(k)
    ensures SaysNoMore(other, k) ==> MergedKernel(Some(k), Some(other)) == Some(k)
    ensures SaysNoMore(KernelFacts(other.id, None, None, None, None, None), k)
    ensures MergedKernel(Some(KernelFacts(other.id, None, None, None, None, None)), Some(k)) == Some(k.(id := other.id))
  {
  }

  /** An axis of the left side keeps its pins, and one it lacks takes the first the right
      side has. */
  lemma MergeIsLeftBiased<K, F>(a: Side<K, F>, b: Side<K, F>, p: PatchAxis, s: SourcePin)
    ensures Ties(ByAxis(PatchAxisName), p, Merged(a, b).patches)
         == Pick(Ties(ByAxis(PatchAxisName), p, a.patches), Ties(ByAxis(PatchAxisName), p, b.patches))
    ensures Ties(ByAxis(SourceAxisName), s, Merged(a, b).sources)
         == Pick(Ties(ByAxis(SourceAxisName), s, a.sources), Ties(ByAxis(SourceAxisName), s, b.sources))
  {
    MergedTies(PatchAxisName, p, a.patches, b.patches);
    MergedTies(SourceAxisName, s, a.sources, b.sources);
  }

  /** Every other answer of the merged side is the left one's, or where that has none the
      right one's. */
  lemma MergeFillsWhatIsOpen<K, F>(a: Side<K, F>, b: Side<K, F>)
    ensures var m := Merged(a, b);
            && m.title == a.title
            && m.blobs == (if a.blobs.Some? then a.blobs else b.blobs)
            && m.packages == (if a.packages.Some? then a.packages else b.packages)
            && m.kconfig == (if a.kconfig.Some? then a.kconfig else b.kconfig)
            && m.builder == (if a.builder.Some? then a.builder else b.builder)
            && m.files == (if a.files.Some? then a.files else b.files)
  {
  }

  /** A silent side takes everything from the right one, which keeps its axes where it names
      each once. */
  lemma SilentIsLeftIdentity<K, F>(title: string, b: Side<K, F>)
    requires forall i, j :: 0 <= i < j < |b.patches| ==> b.patches[i].axis != b.patches[j].axis
    requires forall i, j :: 0 <= i < j < |b.sources| ==> b.sources[i].axis != b.sources[j].axis
    ensures Merged(Silent(title), b) == WithSortedAxes(b).(title := title)
  {
    PushedDistinct(PatchAxisName, b.patches);
    PushedDistinct(SourceAxisName, b.sources);
  }

  lemma {:induction false} PushedDistinct<T>(axis: T -> string, b: seq<T>)
    requires forall i, j :: 0 <= i < j < |b| ==> axis(b[i]) != axis(b[j])
    ensures Pushed(axis, [], b) == b
  {
    if b != [] {
      PushedDistinct(axis, b[..|b| - 1]);
    }
  }

  lemma MergedAxesInOrder<T(!new)>(axis: T -> string, a: seq<T>, b: seq<T>, i: nat, j: nat)
    requires i < j < |MergedAxes(axis, a, b)|
    ensures CompareStrings(axis(MergedAxes(axis, a, b)[i]), axis(MergedAxes(axis, a, b)[j])) != Greater
  {
    AxisOrder(axis);
    SortSorted(ByAxis(axis), Pushed(axis, a, b));
  }

  /** The axes of the merged side come in the order of their names. */
  lemma MergedSideInOrder<K, F>(a: Side<K, F>, b: Side<K, F>)
    ensures var m := Merged(a, b);
            && (forall i, j :: 0 <= i < j < |m.patches| ==> CompareStrings(m.patches[i].axis, m.patches[j].axis) != Greater)
            && (forall i, j :: 0 <= i < j < |m.sources| ==> CompareStrings(m.sources[i].axis, m.sources[j].axis) != Greater)
  {
    var m := Merged(a, b);
    forall i, j | 0 <= i < j < |m.patches| ensures CompareStrings(m.patches[i].axis, m.patches[j].axis) != Greater {
      MergedAxesInOrder(PatchAxisName, a.patches, b.patches, i, j);
    }
    forall i, j | 0 <= i < j < |m.sources| ensures CompareStrings(m.sources[i].axis, m.sources[j].axis) != Greater {
      MergedAxesInOrder(SourceAxisName, a.sources, b.sources, i, j);
    }
  }
}
