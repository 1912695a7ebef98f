/** Build points and their textual references, crates/core/src/buildpoint.rs, with the name
    rules of crates/core/src/loader.rs. */
module BuildPoints {
  import opened Text
  import opened Wrappers

  datatype BuildPoint = BuildPoint(recipe: string, features: seq<string>)

  datatype Refusal = InvalidRecipe(name: string) | InvalidFeature(name: string) | DuplicateFeature(name: string)

  datatype Parsed = Accepted(point: BuildPoint) | Refused(why: Refusal)

  // ----- Names -----

  predicate NameChar(c: char) {
    IsAlphanumeric(c) || c == '.' || c == '_' || c == '-'
  }

  /** Non-empty, no leading dot, and only the characters of a file name. */
  predicate IsBareName(s: string) {
    s != "" && s[0] != '.' && forall i :: 0 <= i < |s| ==> NameChar(s[i])
  }

  /** A bare leaf, or a device and a leaf. */
  predicate IsRecipeRef(s: string) {
    var segments := Split(s, '/');
    |segments| <= 2 && forall i :: 0 <= i < |segments| ==> IsBareName(segments[i])
  }

  predicate AllDistinct(s: seq<string>) {
    forall i, j :: 0 <= i < j < |s| ==> s[i] != s[j]
  }

  /** What `new` promises of every instance. */
  predicate WellFormed(p: BuildPoint) {
    && IsRecipeRef(p.recipe)
    && (forall i :: 0 <= i < |p.features| ==> IsBareName(p.features[i]))
    && AllDistinct(p.features)
  }

  // ----- Construction -----

  /** What is wrong with the first feature that is, if any. */
  function FirstFault(features: seq<string>): Option<Refusal> {
    if features == [] then None
    else
      var (front, last) := (features[..|features| - 1], features[|features| - 1]);
      if FirstFault(front).Some? then FirstFault(front)
      else if !IsBareName(last) then Some(InvalidFeature(last))
      else if last in front then Some(DuplicateFeature(last))
      else None
  }

  function New(recipe: string, features: seq<string>): Parsed {
    if !IsRecipeRef(recipe) then Refused(InvalidRecipe(recipe))
    else if FirstFault(features).Some? then Refused(FirstFault(features).value)
    else Accepted(BuildPoint(recipe, features))
  }

  lemma {:induction false} FaultOfPrefix(features: seq<string>, n: nat)
    requires n <= |features| && FirstFault(features[..n]).Some?
    ensures FirstFault(features) == FirstFault(features[..n])
  {
    if n < |features| {
      assert features[..|features| - 1][..n] == features[..n];
      FaultOfPrefix(features[..|features| - 1], n);
    } else {
      assert features[..n] == features;
    }
  }

  /** The loop, with the set of the features seen so far. */
  method NewPoint(recipe: string, features: seq<string>) returns (r: Parsed)
    ensures r == New(recipe, features)
  {
    if !IsRecipeRef(recipe) {
      return Refused(InvalidRecipe(recipe));
    }
    var seen: set<string> := {};
    for i := 0 to |features|
      invariant forall f :: f in seen <==> f in features[..i]
      invariant FirstFault(features[..i]).None?
    {
      FrontOfTake(features, i);
      var feature := features[i];
      if !IsBareName(feature) {
        FaultOfPrefix(features, i + 1);
        return Refused(InvalidFeature(feature));
      }
      if feature in seen {
        FaultOfPrefix(features, i + 1);
        return Refused(DuplicateFeature(feature));
      }
      InFrontOrLast(features[..i + 1]);
      seen := seen + {feature};
    }
    assert features[..|features|] == features;
    return Accepted(BuildPoint(recipe, features));
  }

  lemma {:induction false} NoFaultMeans(features: seq<string>)
    ensures FirstFault(features).None? <==>
      (forall i :: 0 <= i < |features| ==> IsBareName(features[i])) && AllDistinct(features)
  {
    if features != [] {
      NoFaultMeans(features[..|features| - 1]);
    }
  }

  /** Construction accepts exactly the well-formed points. */
  lemma NewAcceptsWellFormed(recipe: string, features: seq<string>)
    ensures New(recipe, features) == Accepted(BuildPoint(recipe, features)) <==> WellFormed(BuildPoint(recipe, features))
    ensures New(recipe, features).Accepted? ==> New(recipe, features).point == BuildPoint(recipe, features)
  {
    NoFaultMeans(features);
  }

  /** A point is refused for what its recipe or one of its features is, by its name. */
  lemma RefusalNamesTheFault(recipe: string, features: seq<string>)
    requires New(recipe, features).Refused?
    ensures match New(recipe, features).why
            case InvalidRecipe(name) => name == recipe && !IsRecipeRef(name)
            case InvalidFeature(name) => IsRecipeRef(recipe) && name in features && !IsBareName(name)
            case DuplicateFeature(name) => IsRecipeRef(recipe) && exists i, j :: 0 <= i < j < |features| && features[i] == features[j] == name
  {
    if IsRecipeRef(recipe) {
      FaultIsThere(features);
    }
  }

  lemma {:induction false} FaultIsThere(features: seq<string>)
    requires FirstFault(features).Some?
    ensures match FirstFault(features).value
            case InvalidRecipe(_) => false
            case InvalidFeature(name) => name in features && !IsBareName(name)
            case DuplicateFeature(name) => exists i, j :: 0 <= i < j < |features| && features[i] == features[j] == name
  {
    var front, last := features[..|features| - 1], features[|features| - 1];
    if FirstFault(front).Some? {
      FaultIsThere(front);
    } else if IsBareName(last) {
      var i :| 0 <= i < |front| && front[i] == last;
      assert features[i] == features[|features| - 1] == last;
    }
  }

  // ----- References -----

  function Parse(reference: string): Parsed {
    var parts := Split(reference, '+');
    New(parts[0], parts[1..])
  }

  function Reference(p: BuildPoint): string {
    if p.features == [] then p.recipe else p.recipe + "+" + Join(p.features, "+")
  }

  lemma BareNameChars(s: string)
    requires IsBareName(s)
    ensures '+' !in s && '/' !in s
  {
  }

  lemma RecipeHasNoPlus(recipe: string)
    requires IsRecipeRef(recipe)
    ensures '+' !in recipe
  {
    var segments := Split(recipe, '/');
    JoinSplit(recipe, '/');
    BareNameChars(segments[0]);
    if |segments| == 2 {
      BareNameChars(segments[1]);
      assert recipe == segments[0] + "/" + segments[1];
    }
  }

  lemma ReferenceIsJoin(p: BuildPoint)
    ensures Reference(p) == Join([p.recipe] + p.features, "+")
  {
    assert ([p.recipe] + p.features)[1..] == p.features;
  }

  /** Parsing a reference gives the point back, features in order. */
  lemma ParseReference(p: BuildPoint)
    requires WellFormed(p)
    ensures Parse(Reference(p)) == Accepted(p)
  {
    var parts := [p.recipe] + p.features;
    ReferenceIsJoin(p);
    RecipeHasNoPlus(p.recipe);
    forall i | 0 <= i < |parts| ensures '+' !in parts[i] {
      if i > 0 {
        BareNameChars(p.features[i - 1]);
      }
    }
    SplitJoin(parts, '+');
    assert parts[1..] == p.features;
    NewAcceptsWellFormed(p.recipe, p.features);
  }

  /** An accepted text is the reference of the point it parses to. */
  lemma ReferenceParse(s: string)
    requires Parse(s).Accepted?
    ensures WellFormed(Parse(s).point) && Reference(Parse(s).point) == s
  {
    var parts := Split(s, '+');
    JoinSplit(s, '+');
    NewAcceptsWellFormed(parts[0], parts[1..]);
    ReferenceIsJoin(BuildPoint(parts[0], parts[1..]));
    assert [parts[0]] + parts[1..] == parts;
  }

  /** The texts accepted are the references of well-formed points, one point each. */
  lemma ReferencesAreExact(s: string, p: BuildPoint)
    ensures Parse(s) == Accepted(p) <==> WellFormed(p) && Reference(p) == s
  {
    if Parse(s) == Accepted(p) {
      ReferenceParse(s);
    }
    if WellFormed(p) && Reference(p) == s {
      ParseReference(p);
    }
  }

  // ----- Artifact stems -----

  /** Rust's `replace('/', "-")`. */
  function Dashed(s: string): string {
    if s == "" then "" else [if s[0] == '/' then '-' else s[0]] + Dashed(s[1..])
  }

  function ArtifactStem(p: BuildPoint): string {
    Dashed(Reference(p))
  }

  lemma {:induction false} DashedConcat(s: string, t: string)
    ensures Dashed(s + t) == Dashed(s) + Dashed(t)
  {
    if s == "" {
      assert s + t == t;
    } else {
      FrontOfConcat(s, t);
      DashedConcat(s[1..], t);
    }
  }

  lemma {:induction false} DashedChars(s: string)
    ensures '/' !in Dashed(s) && |Dashed(s)| == |s|
    ensures '+' in Dashed(s) ==> '+' in s
    ensures '/' !in s ==> Dashed(s) == s
  {
    if s != "" {
      DashedChars(s[1..]);
    }
  }

  /** A stem names no directory, whatever the point. */
  lemma StemHasNoSlash(p: BuildPoint)
    ensures '/' !in ArtifactStem(p)
  {
    DashedChars(Reference(p));
  }

  /** What follows the recipe in a reference. */
  function FeatureSuffix(p: BuildPoint): string {
    if p.features == [] then "" else "+" + Join(p.features, "+")
  }

  lemma {:induction false} JoinedNamesHaveNoSlash(names: seq<string>)
    requires forall i :: 0 <= i < |names| ==> IsBareName(names[i])
    ensures '/' !in Join(names, "+")
  {
    if names != [] {
      BareNameChars(names[0]);
      if |names| > 1 {
        JoinedNamesHaveNoSlash(names[1..]);
      }
    }
  }

  lemma StemParts(p: BuildPoint)
    requires WellFormed(p)
    ensures ArtifactStem(p) == Dashed(p.recipe) + FeatureSuffix(p)
    ensures Find(ArtifactStem(p), '+') == |p.recipe|
  {
    var suffix := FeatureSuffix(p);
    assert Reference(p) == p.recipe + suffix;
    DashedConcat(p.recipe, suffix);
    if p.features != [] {
      JoinedNamesHaveNoSlash(p.features);
    }
    DashedChars(suffix);
    DashedChars(p.recipe);
    RecipeHasNoPlus(p.recipe);
    FindPast(Dashed(p.recipe), suffix, '+');
  }

  /** A stem keeps the features apart from the recipe. */
  lemma StemDecidesFeatures(p: BuildPoint, q: BuildPoint)
    requires WellFormed(p) && WellFormed(q)
    ensures ArtifactStem(p) == ArtifactStem(q) <==> Dashed(p.recipe) == Dashed(q.recipe) && p.features == q.features
  {
    StemParts(p);
    StemParts(q);
    DashedChars(p.recipe);
    DashedChars(q.recipe);
    Prefix(Dashed(p.recipe), FeatureSuffix(p));
    Prefix(Dashed(q.recipe), FeatureSuffix(q));
    if ArtifactStem(p) == ArtifactStem(q) {
      assert FeatureSuffix(p) == FeatureSuffix(q);
      SuffixDecides(p, q);
    }
  }

  lemma SuffixDecides(p: BuildPoint, q: BuildPoint)
    requires WellFormed(p) && WellFormed(q) && FeatureSuffix(p) == FeatureSuffix(q)
    ensures p.features == q.features
  {
    var (a, b) := (BuildPoint("x", p.features), BuildPoint("x", q.features));
    assert Reference(a) == "x" + FeatureSuffix(p) && Reference(b) == "x" + FeatureSuffix(q);
    PlainRecipe();
    ParseReference(a);
    ParseReference(b);
  }

  lemma PlainRecipe()
    ensures IsRecipeRef("x")
  {
    SplitWhole("x", '/');
  }

  /** The device half of a recipe, none for a bare leaf. */
  function DeviceHalf(recipe: string): Option<string> {
    var i := Find(recipe, '/');
    if i == |recipe| then None else Some(recipe[..i])
  }

  /** Among the points of one device no two share a stem. */
  lemma StemIdentifiesWithinDevice(p: BuildPoint, q: BuildPoint)
    requires WellFormed(p) && WellFormed(q) && DeviceHalf(p.recipe) == DeviceHalf(q.recipe)
    requires ArtifactStem(p) == ArtifactStem(q)
    ensures p == q
  {
    StemDecidesFeatures(p, q);
    RecipeHalves(p.recipe);
    RecipeHalves(q.recipe);
    if DeviceHalf(p.recipe).Some? {
      var head := Dashed(DeviceHalf(p.recipe).value + "/");
      Prefix(head, p.recipe[Find(p.recipe, '/') + 1..]);
      Prefix(head, q.recipe[Find(q.recipe, '/') + 1..]);
    }
  }

  /** A dashed recipe keeps its leaf as it is. */
  lemma RecipeHalves(recipe: string)
    requires IsRecipeRef(recipe)
    ensures
      var i := Find(recipe, '/');
      if i == |recipe| then Dashed(recipe) == recipe
      else
        && recipe == (recipe[..i] + "/") + recipe[i + 1..]
        && Dashed(recipe) == Dashed(recipe[..i] + "/") + recipe[i + 1..]
  {
    var i := Find(recipe, '/');
    if i < |recipe| {
      var leaf := recipe[i + 1..];
      LeafHasNoSlash(recipe);
      SlashSplits(recipe);
      DashedConcat(recipe[..i] + "/", leaf);
      DashedChars(leaf);
    } else {
      DashedChars(recipe);
    }
  }

  lemma SlashSplits(recipe: string)
    requires Find(recipe, '/') < |recipe|
    ensures recipe == (recipe[..Find(recipe, '/')] + "/") + recipe[Find(recipe, '/') + 1..]
  {
    Around(recipe, Find(recipe, '/'));
  }

  lemma LeafHasNoSlash(recipe: string)
    requires IsRecipeRef(recipe) && Find(recipe, '/') < |recipe|
    ensures '/' !in recipe[Find(recipe, '/') + 1..]
  {
    var i := Find(recipe, '/');
    assert Split(recipe, '/') == [recipe[..i]] + Split(recipe[i + 1..], '/');
    SplitOnce(recipe[i + 1..]);
  }

  lemma SplitOnce(s: string)
    requires |Split(s, '/')| == 1
    ensures '/' !in s
  {
    JoinSplit(s, '/');
  }

  // ----- Which recipes share a stem -----

  function LeafHalf(recipe: string): string {
    var i := Find(recipe, '/');
    if i == |recipe| then recipe else recipe[i + 1..]
  }

  /** The device `e` reads as the device `d`, a dash, and a part that the leaf `l` of `d`
      starts with; what is left of `l` is the leaf `m`. */
  ghost predicate TakesIn(d: string, l: string, e: string, m: string) {
    exists x: string :: e == d + (['-'] + x) && l == x + (['-'] + m)
  }

  lemma EqualHalves(d: string, l: string, e: string, m: string)
    requires |d| == |e|
    ensures d + (['-'] + l) == e + (['-'] + m) <==> d == e && l == m
  {
    var (s, t) := (d + (['-'] + l), e + (['-'] + m));
    Prefix(d, ['-'] + l);
    Prefix(e, ['-'] + m);
    assert s[|d| + 1..] == l && t[|e| + 1..] == m;
  }

  lemma LongerHalf(d: string, l: string, e: string, m: string)
    requires |d| < |e|
    ensures d + (['-'] + l) == e + (['-'] + m) <==> TakesIn(d, l, e, m)
  {
    var (s, t) := (d + (['-'] + l), e + (['-'] + m));
    if s == t {
      var x := e[|d| + 1..];
      Prefix(e, ['-'] + m);
      Prefix(d, ['-'] + l);
      assert e[..|d|] == s[..|d|] == d && e[|d|] == s[|d|] == '-';
      assert e == d + (['-'] + x);
      Regrouped(d, x, m);
      EqualHalves(d, l, d, x + (['-'] + m));
    }
    if x: string :| e == d + (['-'] + x) && l == x + (['-'] + m) {
      Regrouped(d, x, m);
    }
  }

  lemma Regrouped(d: string, x: string, m: string)
    ensures (d + (['-'] + x)) + (['-'] + m) == d + (['-'] + (x + (['-'] + m)))
  {
  }

  /** Dashing joins the halves of a recipe with a dash. */
  lemma DashedHalves(recipe: string)
    requires IsRecipeRef(recipe)
    ensures DeviceHalf(recipe).Some? ==> IsBareName(DeviceHalf(recipe).value)
    ensures IsBareName(LeafHalf(recipe))
    ensures Dashed(recipe)
         == if DeviceHalf(recipe).Some? then DeviceHalf(recipe).value + (['-'] + LeafHalf(recipe)) else LeafHalf(recipe)
  {
    HalvesAreBare(recipe);
    if DeviceHalf(recipe).Some? {
      var device, leaf := DeviceHalf(recipe).value, LeafHalf(recipe);
      SlashSplits(recipe);
      TwoHalves(device, leaf);
      Associative(device, "-", leaf);
    } else {
      DashedChars(recipe);
    }
  }

  lemma HalvesAreBare(recipe: string)
    requires IsRecipeRef(recipe)
    ensures DeviceHalf(recipe).Some? ==> IsBareName(DeviceHalf(recipe).value)
    ensures IsBareName(LeafHalf(recipe))
  {
    var i, segments := Find(recipe, '/'), Split(recipe, '/');
    if i < |recipe| {
      LeafHasNoSlash(recipe);
      SplitWhole(recipe[i + 1..], '/');
      assert segments[0] == recipe[..i] && segments[1] == recipe[i + 1..];
    } else {
      assert segments[0] == recipe;
    }
    assert IsBareName(segments[0]);
  }

  /** Two recipes that the stem does not tell apart, by the names in them: two of one device
      have one leaf; of two devices one takes in the start of the other's leaf; a leaf on
      its own is a device, a dash and a leaf. */
  ghost predicate StemsAlike(recipe: string, other: string) {
    var (l, m) := (LeafHalf(recipe), LeafHalf(other));
    match (DeviceHalf(recipe), DeviceHalf(other))
    case (None, None) => l == m
    case (None, Some(e)) => l == e + (['-'] + m)
    case (Some(d), None) => m == d + (['-'] + l)
    case (Some(d), Some(e)) => (d == e && l == m) || TakesIn(d, l, e, m) || TakesIn(e, m, d, l)
  }

  lemma DashedAlike(d: string, l: string, e: string, m: string)
    ensures d + (['-'] + l) == e + (['-'] + m) <==> (d == e && l == m) || TakesIn(d, l, e, m) || TakesIn(e, m, d, l)
  {
    if |d| == |e| {
      EqualHalves(d, l, e, m);
    } else if |d| < |e| {
      LongerHalf(d, l, e, m);
    } else {
      LongerHalf(e, m, d, l);
    }
  }

  /** Two points share a stem exactly when they select the same features in the same order
      and the names in their recipes run into each other at a dash. */
  lemma StemsCollideWhen(p: BuildPoint, q: BuildPoint)
    requires WellFormed(p) && WellFormed(q)
    ensures ArtifactStem(p) == ArtifactStem(q) <==> p.features == q.features && StemsAlike(p.recipe, q.recipe)
  {
    StemDecidesFeatures(p, q);
    DashedHalves(p.recipe);
    DashedHalves(q.recipe);
    if DeviceHalf(p.recipe).Some? && DeviceHalf(q.recipe).Some? {
      DashedAlike(DeviceHalf(p.recipe).value, LeafHalf(p.recipe), DeviceHalf(q.recipe).value, LeafHalf(q.recipe));
    }
  }

  // ----- Which devices can -----

  /** One device name is another, a dash and more that a leaf can start with. */
  ghost predicate Extends(d: string, e: string) {
    exists x: string :: e == d + (['-'] + x) && (x != "" ==> x[0] != '.')
  }

  predicate OfDevice(p: BuildPoint, device: string) {
    WellFormed(p) && DeviceHalf(p.recipe) == Some(device)
  }

  ghost predicate CanCollide(d: string, e: string) {
    exists p, q :: OfDevice(p, d) && OfDevice(q, e) && ArtifactStem(p) == ArtifactStem(q)
  }

  lemma TakenInExtends(d: string, l: string, e: string, m: string)
    requires IsBareName(l) && TakesIn(d, l, e, m)
    ensures Extends(d, e)
  {
    var x: string :| e == d + (['-'] + x) && l == x + (['-'] + m);
    assert x != "" ==> x[0] == l[0];
  }

  lemma ExtensionCollides(d: string, e: string)
    requires IsBareName(d) && IsBareName(e) && Extends(d, e)
    ensures CanCollide(d, e) && CanCollide(e, d)
  {
    var x: string :| e == d + (['-'] + x) && (x != "" ==> x[0] != '.');
    var l, m := x + (['-'] + "a"), "a";
    forall i | 0 <= i < |l| ensures NameChar(l[i]) {
      assert i < |x| ==> l[i] == x[i] == e[|d| + 1 + i];
    }
    var (p, q) := (BuildPoint(d + "/" + l, []), BuildPoint(e + "/" + m, []));
    DevicePoint(d, l);
    DevicePoint(e, m);
    assert TakesIn(d, l, e, m);
    StemsCollideWhen(p, q);
    assert OfDevice(p, d) && OfDevice(q, e) && ArtifactStem(p) == ArtifactStem(q);
  }

  lemma DevicePoint(device: string, leaf: string)
    requires IsBareName(device) && IsBareName(leaf)
    ensures OfDevice(BuildPoint(device + "/" + leaf, []), device) && LeafHalf(device + "/" + leaf) == leaf
  {
    TwoHalves(device, leaf);
    BareNameChars(device);
    FindAfter(device, '/', leaf);
    assert (device + "/" + leaf)[..|device|] == device && (device + "/" + leaf)[|device| + 1..] == leaf;
  }

  /** Two devices have points that share a stem exactly when one name extends the other, so
      a set of device names none of which extends another has none. */
  lemma DevicesCollideWhen(d: string, e: string)
    requires IsBareName(d) && IsBareName(e) && d != e
    ensures CanCollide(d, e) <==> Extends(d, e) || Extends(e, d)
  {
    if p, q :| OfDevice(p, d) && OfDevice(q, e) && ArtifactStem(p) == ArtifactStem(q) {
      StemsCollideWhen(p, q);
      DashedHalves(p.recipe);
      DashedHalves(q.recipe);
      var (l, m) := (LeafHalf(p.recipe), LeafHalf(q.recipe));
      if TakesIn(d, l, e, m) {
        TakenInExtends(d, l, e, m);
      } else {
        TakenInExtends(e, m, d, l);
      }
    }
    if Extends(d, e) {
      ExtensionCollides(d, e);
    } else if Extends(e, d) {
      ExtensionCollides(e, d);
    }
  }

  const LEFT_RECIPE := "asus-c201" + "/" + "libreboot-forky"
  const RIGHT_RECIPE := "asus-c201-libreboot" + "/" + "forky"

  lemma WitnessNames()
    ensures IsBareName("asus-c201") && IsBareName("libreboot-forky")
    ensures IsBareName("asus-c201-libreboot") && IsBareName("forky")
  {
  }

  lemma WitnessTexts()
    ensures LEFT_RECIPE != RIGHT_RECIPE
    ensures "asus-c201" + "-" + "libreboot-forky" == "asus-c201-libreboot" + "-" + "forky"
  {
    assert LEFT_RECIPE[9] == '/' && RIGHT_RECIPE[9] == '-';
  }

  /** Across devices two points can share a stem: a dash of a device name reads as the
      separator. */
  lemma StemCollision()
    ensures
      var (p, q) := (BuildPoint(LEFT_RECIPE, []), BuildPoint(RIGHT_RECIPE, []));
      WellFormed(p) && WellFormed(q) && p != q && ArtifactStem(p) == ArtifactStem(q)
  {
    WitnessNames();
    TwoHalves("asus-c201", "libreboot-forky");
    TwoHalves("asus-c201-libreboot", "forky");
    WitnessTexts();
  }

  lemma TwoHalves(device: string, leaf: string)
    requires IsBareName(device) && IsBareName(leaf)
    ensures IsRecipeRef(device + "/" + leaf)
    ensures Dashed(device + "/" + leaf) == device + "-" + leaf
  {
    BareNameChars(device);
    BareNameChars(leaf);
    SplitAfter(device, '/', leaf);
    SplitWhole(leaf, '/');
    DashedConcat(device + "/", leaf);
    DashedConcat(device, "/");
    DashedChars(device);
    DashedChars(leaf);
    assert "/"[1..] == "";
  }
}
