/** Which hard dependencies of a set of installed packages the set does not meet,
    crates/core/src/debdep.rs, against what Debian Policy asks of the set. */
module DependencyClosure {
  import opened DependencyFields
  import opened Lists
  import opened Orders
  import opened Sorting
  import opened Text
  import opened Versions
  import opened Wrappers

  /** A status stanza: the fields as text. */
  datatype Package = Package(name: string, version: string, depends: string, provided: string)

  datatype Unmet = Unmet(package: string, packageVersion: string, required: string, installed: Option<string>)

  // ----- What the fields declare -----

  datatype Group = Group(text: string, alternatives: seq<Atom>)

  /** One `Provides` item; an empty version is a bare one. */
  datatype Item = Item(name: string, version: string)

  /** A package with its fields read. */
  datatype Declared = Declared(name: string, version: string, groups: seq<Group>, items: seq<Item>)

  function ReadItem(text: string): Item {
    var atom := ParseAtom(text);
    Item(atom.name, if atom.constraint.Some? then atom.constraint.value.version else "")
  }

  function ReadItems(texts: seq<string>): seq<Item> {
    seq(|texts|, i requires 0 <= i < |texts| => ReadItem(texts[i]))
  }

  function ReadGroups(texts: seq<string>): seq<Group> {
    seq(|texts|, i requires 0 <= i < |texts| => Group(texts[i], ReadGroup(texts[i])))
  }

  function Read(p: Package): Declared {
    Declared(p.name, p.version, ReadGroups(SplitTop(p.depends, ',')), ReadItems(SplitTop(p.provided, ',')))
  }

  function ReadAll(packages: seq<Package>): seq<Declared> {
    seq(|packages|, i requires 0 <= i < |packages| => Read(packages[i]))
  }

  // ----- What a set of packages meets -----

  /** Whether an operator admits an answer; one this does not know admits none. */
  predicate Admits(relation: string, ord: Ordering) {
    match relation
    case "<<" => ord == Less
    case "<=" => ord != Greater
    case "=" => ord == Equal
    case ">=" => ord != Less
    case ">>" => ord == Greater
    case "<" => ord != Greater
    case ">" => ord != Less
    case _ => false
  }

  predicate RelationHolds(have: string, c: Constraint) {
    Admits(c.relation, VersionOrder(have, c.version))
  }

  /** The operators mean what section 7.1 of Debian Policy and dpkg say: strictly earlier,
      earlier or equal, equal, later or equal, strictly later; a lone `<` or `>` is the old
      spelling that admits equality; and exactly one of earlier, equal and later holds. */
  lemma RelationsAgree(ord: Ordering)
    ensures Admits("<<", ord) <==> ord == Less
    ensures Admits("<<", ord) <==> Admits(">>", ord.Flip())
    ensures Admits("<=", ord) <==> Admits("<<", ord) || Admits("=", ord)
    ensures Admits(">=", ord) <==> Admits(">>", ord) || Admits("=", ord)
    ensures Admits("<", ord) <==> Admits("<=", ord)
    ensures Admits(">", ord) <==> Admits(">=", ord)
    ensures Admits("<<", ord) <==> !Admits(">=", ord)
    ensures Admits("=", ord) <==> ord == Equal
  {
  }

  /** The package of that name, at a version the constraint allows. */
  predicate ByName(p: Declared, atom: Atom) {
    p.name == atom.name && (atom.constraint.Some? ==> RelationHolds(p.version, atom.constraint.value))
  }

  /** An item of that name: a bare one meets only an unversioned dependency. */
  predicate ByItem(item: Item, atom: Atom) {
    && item.name == atom.name
    && (atom.constraint.Some? ==> item.version != "" && RelationHolds(item.version, atom.constraint.value))
  }

  /** The set meets the atom: by the package itself or by one that provides it. */
  predicate Meets(packages: set<Declared>, atom: Atom) {
    || atom.name == ""
    || (exists p :: p in packages && ByName(p, atom))
    || (exists p, item :: p in packages && item in p.items && ByItem(item, atom))
  }

  /** A group is met when one of its alternatives is. */
  predicate MeetsGroup(packages: set<Declared>, group: Group) {
    exists atom :: atom in group.alternatives && Meets(packages, atom)
  }

  ghost predicate Closed(packages: set<Declared>) {
    forall p, group :: p in packages && group in p.groups ==> MeetsGroup(packages, group)
  }

  ghost predicate DistinctNames(packages: seq<Declared>) {
    forall i, j :: 0 <= i < j < |packages| ==> packages[i].name != packages[j].name
  }

  function AsSet(packages: seq<Declared>): (s: set<Declared>)
    ensures forall p :: p in s <==> p in packages
  {
    set p | p in packages
  }

  // ----- The tables -----

  type InstalledTable = map<string, string>

  type ProvidesTable = map<string, seq<string>>

  /** The installed version of every name; the last package of a name counts. */
  function Installed(packages: seq<Declared>): InstalledTable {
    if packages == [] then map[]
    else
      var last := packages[|packages| - 1];
      Installed(packages[..|packages| - 1])[last.name := last.version]
  }

  function AddItem(table: ProvidesTable, item: Item): ProvidesTable {
    table[item.name := (if item.name in table then table[item.name] else []) + [item.version]]
  }

  /** Every provided version of every virtual name, over a list of items. */
  function Provided(items: seq<Item>): ProvidesTable {
    if items == [] then map[] else AddItem(Provided(items[..|items| - 1]), items[|items| - 1])
  }

  function ItemsOf(p: Declared): seq<Item> {
    p.items
  }

  datatype Tables = Tables(installed: InstalledTable, provided: ProvidesTable)

  function TablesOf(packages: seq<Declared>): Tables {
    Tables(Installed(packages), Provided(FlatMap(ItemsOf, packages)))
  }

  // ----- The report -----

  /** One alternative against the tables. */
  predicate Satisfied(atom: Atom, t: Tables) {
    || atom.name == ""
    || (atom.name in t.installed
        && (atom.constraint.Some? ==> RelationHolds(t.installed[atom.name], atom.constraint.value)))
    || (atom.name in t.provided
        && (atom.constraint.Some? ==>
            exists v :: v in t.provided[atom.name] && v != "" && RelationHolds(v, atom.constraint.value)))
  }

  predicate AnySatisfied(alternatives: seq<Atom>, t: Tables) {
    exists atom :: atom in alternatives && Satisfied(atom, t)
  }

  function Lookup(table: InstalledTable, name: string): Option<string> {
    if name in table then Some(table[name]) else None
  }

  /** The report entry of an unmet group: what is installed for its first alternative. */
  function Entry(p: Declared, group: Group, installed: InstalledTable): Unmet {
    var first := if group.alternatives == [] then "" else group.alternatives[0].name;
    Unmet(p.name, p.version, group.text, Lookup(installed, first))
  }

  function UnmetGroup(p: Declared, group: Group, t: Tables): seq<Unmet> {
    if AnySatisfied(group.alternatives, t) then [] else [Entry(p, group, t.installed)]
  }

  function UnmetGroups(p: Declared, t: Tables): seq<Unmet> {
    FlatMap((group: Group) => UnmetGroup(p, group, t), p.groups)
  }

  function UnmetOf(packages: seq<Declared>, t: Tables): seq<Unmet> {
    FlatMap((p: Declared) => UnmetGroups(p, t), packages)
  }

  /** The order of two entries: that of their packages' names and then of their texts. */
  function CompareUnmet(a: Unmet, b: Unmet): Ordering {
    CompareStrings(a.package, b.package).Then(CompareStrings(a.required, b.required))
  }

  function Report(packages: seq<Declared>): seq<Unmet> {
    Sort(CompareUnmet, UnmetOf(packages, TablesOf(packages)))
  }

  lemma UnmetOrder()
    ensures TotalPreorder(CompareUnmet)
  {
    forall a: Unmet, b: Unmet ensures CompareUnmet(b, a) == CompareUnmet(a, b).Flip() {
      CompareStringsTotal(a.package, b.package);
      CompareStringsTotal(a.required, b.required);
    }
    forall a: Unmet, b: Unmet, c: Unmet ensures Chained(CompareUnmet(a, b), CompareUnmet(b, c), CompareUnmet(a, c)) {
      CompareStringsChained(a.package, b.package, c.package);
      CompareStringsChained(a.required, b.required, c.required);
    }
  }

  // ----- The loops -----

  lemma InstalledStep(packages: seq<Declared>, i: nat)
    requires i < |packages|
    ensures Installed(packages[..i + 1]) == Installed(packages[..i])[packages[i].name := packages[i].version]
  {
    FrontOfTake(packages, i);
  }

  lemma ProvidedStep(before: seq<Item>, own: seq<Item>, k: nat)
    requires k < |own|
    ensures Provided(before + own[..k + 1]) == AddItem(Provided(before + own[..k]), own[k])
  {
    var longer := before + own[..k + 1];
    assert longer[..|longer| - 1] == before + own[..k];
  }

  /** Both tables, then every group of every package against them, then the sort. */
  method Unsatisfied(packages: seq<Package>) returns (out: seq<Unmet>)
    ensures out == Report(ReadAll(packages))
  {
    var installed := CollectInstalled(packages);
    var provided := CollectProvided(packages);
    out := CollectUnmet(packages, Tables(installed, provided));
    out := Sort(CompareUnmet, out);
  }

  method CollectInstalled(packages: seq<Package>) returns (installed: InstalledTable)
    ensures installed == Installed(ReadAll(packages))
  {
    installed := map[];
    ghost var declared := ReadAll(packages);
    for i := 0 to |packages|
      invariant installed == Installed(declared[..i])
    {
      InstalledStep(declared, i);
      installed := installed[packages[i].name := packages[i].version];
    }
    assert declared[..|packages|] == declared;
  }

  lemma ReadAllAt(packages: seq<Package>, i: nat)
    requires i < |packages|
    ensures |ReadAll(packages)| == |packages| && ReadAll(packages)[i] == Read(packages[i])
  {
  }

  method CollectProvided(packages: seq<Package>) returns (provided: ProvidesTable)
    ensures provided == Provided(FlatMap(ItemsOf, ReadAll(packages)))
  {
    provided := map[];
    ghost var declared := ReadAll(packages);
    ghost var items: seq<Item> := [];
    for i := 0 to |packages|
      invariant items == FlatMap(ItemsOf, declared[..i])
      invariant provided == Provided(items)
    {
      ReadAllAt(packages, i);
      FlatMapStep(ItemsOf, declared, i);
      provided := AddProvided(provided, packages[i], items, declared[i]);
      items := items + ItemsOf(declared[i]);
    }
    assert declared[..|packages|] == declared;
  }

  method AddProvided(table: ProvidesTable, p: Package, ghost before: seq<Item>, ghost d: Declared) returns (provided: ProvidesTable)
    requires table == Provided(before) && d == Read(p)
    ensures provided == Provided(before + ItemsOf(d))
  {
    var own := SplitTopLevel(p.provided, ',');
    provided := AddItems(table, own, before);
  }

  method AddItems(table: ProvidesTable, own: seq<string>, ghost before: seq<Item>) returns (provided: ProvidesTable)
    requires table == Provided(before)
    ensures provided == Provided(before + ReadItems(own))
  {
    provided := table;
    ghost var items := ReadItems(own);
    assert before + items[..0] == before;
    for k := 0 to |own|
      invariant provided == Provided(before + items[..k])
    {
      ProvidedStep(before, items, k);
      provided := AddItem(provided, ReadItem(own[k]));
    }
    assert items[..|own|] == items;
  }

  method CollectUnmet(packages: seq<Package>, t: Tables) returns (out: seq<Unmet>)
    ensures out == UnmetOf(ReadAll(packages), t)
  {
    out := [];
    ghost var declared := ReadAll(packages);
    ghost var f := (p: Declared) => UnmetGroups(p, t);
    for i := 0 to |packages|
      invariant out == FlatMap(f, declared[..i])
    {
      FlatMapStep(f, declared, i);
      var unmet := UnmetLoop(packages[i], t);
      out := out + unmet;
    }
    assert declared[..|packages|] == declared;
  }

  method UnmetLoop(p: Package, t: Tables) returns (out: seq<Unmet>)
    ensures out == UnmetGroups(Read(p), t)
  {
    var texts := SplitTopLevel(p.depends, ',');
    out := UnmetTexts(p.name, p.version, texts, t, Read(p));
  }

  method UnmetTexts(name: string, version: string, texts: seq<string>, t: Tables, ghost p: Declared) returns (out: seq<Unmet>)
    requires p.name == name && p.version == version
    ensures out == FlatMap((group: Group) => UnmetGroup(p, group, t), ReadGroups(texts))
  {
    out := [];
    ghost var groups := ReadGroups(texts);
    ghost var f := (group: Group) => UnmetGroup(p, group, t);
    for i := 0 to |texts|
      invariant out == FlatMap(f, groups[..i])
    {
      FlatMapStep(f, groups, i);
      var unmet := UnmetOne(name, version, texts[i], t, p);
      out := out + unmet;
    }
    assert groups[..|texts|] == groups;
  }

  method UnmetOne(name: string, version: string, text: string, t: Tables, ghost p: Declared) returns (out: seq<Unmet>)
    requires p.name == name && p.version == version
    ensures out == UnmetGroup(p, Group(text, ReadGroup(text)), t)
  {
    var pieces := SplitTopLevel(text, '|');
    var alternatives := ReadAtoms(pieces);
    if AnySatisfied(alternatives, t) {
      return [];
    }
    var first := if alternatives == [] then "" else alternatives[0].name;
    return [Unmet(name, version, text, Lookup(t.installed, first))];
  }

  // ----- The tables mean what Policy asks -----

  /** The last package of a name. */
  function Latest(packages: seq<Declared>, name: string): Option<Declared> {
    if packages == [] then None
    else
      var last := packages[|packages| - 1];
      if last.name == name then Some(last) else Latest(packages[..|packages| - 1], name)
  }

  lemma {:induction false} InstalledIsLatest(packages: seq<Declared>, name: string)
    ensures name in Installed(packages) <==> Latest(packages, name).Some?
    ensures Latest(packages, name).Some? ==> Installed(packages)[name] == Latest(packages, name).value.version
  {
    if packages != [] {
      InstalledIsLatest(packages[..|packages| - 1], name);
    }
  }

  lemma {:induction false} LatestMeans(packages: seq<Declared>, name: string)
    ensures Latest(packages, name).Some? <==> exists p :: p in packages && p.name == name
    ensures Latest(packages, name).Some? ==> Latest(packages, name).value in packages && Latest(packages, name).value.name == name
    ensures DistinctNames(packages) ==> forall p :: p in packages && p.name == name ==> Latest(packages, name) == Some(p)
  {
    if packages != [] {
      LatestMeans(packages[..|packages| - 1], name);
      InFrontOrLast(packages);
      if DistinctNames(packages) {
        OthersDiffer(packages);
      }
    }
  }

  lemma OthersDiffer(packages: seq<Declared>)
    requires DistinctNames(packages) && packages != []
    ensures DistinctNames(packages[..|packages| - 1])
    ensures forall p :: p in packages[..|packages| - 1] ==> p.name != packages[|packages| - 1].name
  {
  }

  lemma InstalledMeans(packages: seq<Declared>, name: string)
    requires DistinctNames(packages)
    ensures name in Installed(packages) <==> exists p :: p in packages && p.name == name
    ensures forall p :: p in packages && p.name == name ==> Installed(packages)[name] == p.version
  {
    InstalledIsLatest(packages, name);
    LatestMeans(packages, name);
  }

  predicate Offers(table: ProvidesTable, name: string, v: string) {
    name in table && v in table[name]
  }

  lemma {:induction false} ProvidedMeans(items: seq<Item>, name: string, v: string)
    ensures Offers(Provided(items), name, v) <==> Item(name, v) in items
  {
    if items != [] {
      ProvidedMeans(items[..|items| - 1], name, v);
      InFrontOrLast(items);
    }
  }

  /** A name in the table has a version there. */
  lemma {:induction false} ProvidedNonempty(items: seq<Item>, name: string)
    requires name in Provided(items)
    ensures Provided(items)[name] != []
  {
    if items[|items| - 1].name != name {
      ProvidedNonempty(items[..|items| - 1], name);
    }
  }

  lemma ByItemMeans(packages: seq<Declared>, atom: Atom)
    ensures
      var table := Provided(FlatMap(ItemsOf, packages));
      (atom.name in table
        && (atom.constraint.Some? ==>
            exists v :: v in table[atom.name] && v != "" && RelationHolds(v, atom.constraint.value)))
      <==> exists p, item :: p in AsSet(packages) && item in p.items && ByItem(item, atom)
  {
    var items := FlatMap(ItemsOf, packages);
    var table := Provided(items);
    if atom.name in table && (atom.constraint.Some? ==>
      exists v :: v in table[atom.name] && v != "" && RelationHolds(v, atom.constraint.value))
    {
      ProvidedNonempty(items, atom.name);
      var v := OfferedVersion(atom, table);
      ProvidedMeans(items, atom.name, v);
      InFlatMap(ItemsOf, packages, Item(atom.name, v));
      assert ByItem(Item(atom.name, v), atom);
    }
    if p, item :| p in AsSet(packages) && item in p.items && ByItem(item, atom) {
      assert item in ItemsOf(p);
      InFlatMap(ItemsOf, packages, item);
      ProvidedMeans(items, atom.name, item.version);
      assert Offers(table, atom.name, item.version);
    }
  }

  /** A version in the table that makes it satisfy the atom. */
  lemma OfferedVersion(atom: Atom, table: ProvidesTable) returns (v: string)
    requires atom.name in table && table[atom.name] != []
    requires atom.constraint.Some? ==>
      exists v :: v in table[atom.name] && v != "" && RelationHolds(v, atom.constraint.value)
    ensures Offers(table, atom.name, v)
    ensures atom.constraint.Some? ==> v != "" && RelationHolds(v, atom.constraint.value)
  {
    if atom.constraint.Some? {
      v :| v in table[atom.name] && v != "" && RelationHolds(v, atom.constraint.value);
    } else {
      v := table[atom.name][0];
    }
  }

  ghost predicate ItemMeets(packages: seq<Declared>, atom: Atom) {
    exists p, item :: p in AsSet(packages) && item in p.items && ByItem(item, atom)
  }

  predicate LatestMeets(packages: seq<Declared>, atom: Atom) {
    var p := Latest(packages, atom.name);
    p.Some? && ByName(p.value, atom)
  }

  /** What a list of packages meets: a repeated name stands for its last package, which
      alone can meet an atom by name, while each can by an item it provides. */
  ghost predicate Met(packages: seq<Declared>, atom: Atom) {
    atom.name == "" || LatestMeets(packages, atom) || ItemMeets(packages, atom)
  }

  /** The tables answer just that, for every list. */
  lemma SatisfiedMeansMet(packages: seq<Declared>, atom: Atom)
    ensures Satisfied(atom, TablesOf(packages)) <==> Met(packages, atom)
  {
    InstalledIsLatest(packages, atom.name);
    LatestMeans(packages, atom.name);
    ByItemMeans(packages, atom);
  }

  /** An earlier package of the atom's name meets it, and neither the last one of the name
      nor an item does. */
  ghost predicate Overshadowed(packages: seq<Declared>, atom: Atom) {
    && atom.name != "" && (exists p :: p in packages && ByName(p, atom))
    && !LatestMeets(packages, atom) && !ItemMeets(packages, atom)
  }

  /** The list meets what the set of its packages does exactly when no package that would
      meet the atom is overshadowed by a later one of its name. */
  lemma MetUnlessOvershadowed(packages: seq<Declared>, atom: Atom)
    ensures Met(packages, atom) <==> Meets(AsSet(packages), atom) && !Overshadowed(packages, atom)
    ensures Overshadowed(packages, atom) ==> Meets(AsSet(packages), atom)
  {
    LatestMeans(packages, atom.name);
    if LatestMeets(packages, atom) {
      assert Latest(packages, atom.name).value in AsSet(packages);
    }
    if p :| p in packages && ByName(p, atom) {
      assert p in AsSet(packages);
    }
  }

  lemma DistinctNeverOvershadow(packages: seq<Declared>, atom: Atom)
    requires DistinctNames(packages)
    ensures !Overshadowed(packages, atom)
  {
    LatestMeans(packages, atom.name);
  }

  /** The tables answer what the set of packages does exactly where no package that would
      meet the atom is overshadowed, as none is where names are distinct. */
  lemma SatisfiedMeansMeets(packages: seq<Declared>, atom: Atom)
    ensures (Satisfied(atom, TablesOf(packages)) <==> Meets(AsSet(packages), atom)) <==> !Overshadowed(packages, atom)
    ensures DistinctNames(packages) ==> !Overshadowed(packages, atom)
  {
    SatisfiedMeansMet(packages, atom);
    MetUnlessOvershadowed(packages, atom);
    if DistinctNames(packages) {
      DistinctNeverOvershadow(packages, atom);
    }
  }

  ghost predicate GroupMet(packages: seq<Declared>, group: Group) {
    exists atom :: atom in group.alternatives && Met(packages, atom)
  }

  lemma UnmetGroupIs(packages: seq<Declared>, p: Declared, group: Group)
    ensures UnmetGroup(p, group, TablesOf(packages)) == [] <==> GroupMet(packages, group)
    ensures !GroupMet(packages, group) ==> UnmetGroup(p, group, TablesOf(packages)) == [Entry(p, group, Installed(packages))]
  {
    forall atom ensures Satisfied(atom, TablesOf(packages)) <==> Met(packages, atom) {
      SatisfiedMeansMet(packages, atom);
    }
  }

  /** The set meets the group, but only by packages that are overshadowed. */
  ghost predicate Loses(packages: seq<Declared>, group: Group) {
    && (exists atom :: atom in group.alternatives && Overshadowed(packages, atom))
    && forall atom :: atom in group.alternatives && Meets(AsSet(packages), atom) ==> Overshadowed(packages, atom)
  }

  lemma GroupMetUnlessLost(packages: seq<Declared>, group: Group)
    ensures GroupMet(packages, group) <==> MeetsGroup(AsSet(packages), group) && !Loses(packages, group)
  {
    forall atom ensures Met(packages, atom) <==> Meets(AsSet(packages), atom) && !Overshadowed(packages, atom) {
      MetUnlessOvershadowed(packages, atom);
    }
  }

  lemma DistinctLoseNothing(packages: seq<Declared>, group: Group)
    requires DistinctNames(packages)
    ensures !Loses(packages, group)
  {
    forall atom ensures !Overshadowed(packages, atom) {
      DistinctNeverOvershadow(packages, atom);
    }
  }

  // ----- Which version is held against which -----

  /** What an operator asks of the order of the version that is there and the one wanted. */
  predicate Asks(relation: string, ord: Ordering) {
    || (relation == "<<" && ord == Less)
    || (relation == "<=" && (ord == Less || ord == Equal))
    || (relation == "=" && ord == Equal)
    || (relation == ">=" && (ord == Equal || ord == Greater))
    || (relation == ">>" && ord == Greater)
    || (relation == "<" && (ord == Less || ord == Equal))
    || (relation == ">" && (ord == Equal || ord == Greater))
  }

  lemma AdmitsAsAsked(relation: string, ord: Ordering)
    ensures Admits(relation, ord) <==> Asks(relation, ord)
  {
  }

  /** A package alone meets a dependency on its name exactly when its own version, compared
      with the one asked for, is what the operator says; without an operator always. */
  lemma OwnVersionDecides(p: Declared, relation: string, want: string)
    requires p.name != "" && forall item :: item in p.items ==> item.name != p.name
    ensures Satisfied(Atom(p.name, None), TablesOf([p]))
    ensures Satisfied(Atom(p.name, Some(Constraint(relation, want))), TablesOf([p])) <==> Asks(relation, VersionOrder(p.version, want))
  {
    OnlyNameMeets(p, Atom(p.name, None));
    OnlyNameMeets(p, Atom(p.name, Some(Constraint(relation, want))));
    NameAsks(p, relation, want, VersionOrder(p.version, want));
  }

  lemma NameAsks(p: Declared, relation: string, want: string, ord: Ordering)
    requires ord == VersionOrder(p.version, want)
    ensures ByName(p, Atom(p.name, Some(Constraint(relation, want)))) <==> Asks(relation, ord)
  {
    AdmitsAsAsked(relation, ord);
  }

  lemma OnlyNameMeets(p: Declared, atom: Atom)
    requires atom.name == p.name != "" && forall item :: item in p.items ==> item.name != p.name
    ensures Satisfied(atom, TablesOf([p])) <==> ByName(p, atom)
  {
    LatestOfOne(p, p.name);
    SatisfiedMeansMet([p], atom);
  }

  lemma LatestOfOne(p: Declared, name: string)
    ensures Latest([p], name) == if p.name == name then Some(p) else None
  {
    assert [p][..0] == [];
  }

  /** A package that provides a name once meets a dependency on it without an operator, and
      one with an operator exactly when it provides a version and that is what it says. */
  lemma ProvidedVersionDecides(p: Declared, item: Item, relation: string, want: string)
    requires item.name != "" && item.name != p.name && p.items == [item]
    ensures Satisfied(Atom(item.name, None), TablesOf([p]))
    ensures Satisfied(Atom(item.name, Some(Constraint(relation, want))), TablesOf([p]))
       <==> item.version != "" && Asks(relation, VersionOrder(item.version, want))
  {
    LatestOfOne(p, item.name);
    OnlyItemMeets(p, item, Atom(item.name, None));
    OnlyItemMeets(p, item, Atom(item.name, Some(Constraint(relation, want))));
    ItemAsks(item, relation, want, VersionOrder(item.version, want));
  }

  lemma ItemAsks(item: Item, relation: string, want: string, ord: Ordering)
    requires ord == VersionOrder(item.version, want)
    ensures ByItem(item, Atom(item.name, Some(Constraint(relation, want)))) <==> item.version != "" && Asks(relation, ord)
  {
    AdmitsAsAsked(relation, ord);
  }

  lemma OnlyItemMeets(p: Declared, item: Item, atom: Atom)
    requires atom.name != "" && atom.name != p.name && p.items == [item]
    ensures Satisfied(atom, TablesOf([p])) <==> ByItem(item, atom)
  {
    LatestOfOne(p, atom.name);
    SatisfiedMeansMet([p], atom);
    assert p in AsSet([p]) && item in p.items;
  }

  // ----- What the report says -----

  /** `u` is the entry of a group that `p` declares and the list does not meet. */
  ghost predicate NamesUnmet(packages: seq<Declared>, u: Unmet, p: Declared, group: Group) {
    && p in packages && group in p.groups && !GroupMet(packages, group)
    && u == Entry(p, group, Installed(packages))
  }

  lemma UnmetGroupsListed(packages: seq<Declared>, p: Declared, u: Unmet)
    requires p in packages
    ensures u in UnmetGroups(p, TablesOf(packages)) <==> exists group :: NamesUnmet(packages, u, p, group)
  {
    var t := TablesOf(packages);
    var f := (group: Group) => UnmetGroup(p, group, t);
    InFlatMap(f, p.groups, u);
    forall group | group in p.groups ensures u in f(group) <==> NamesUnmet(packages, u, p, group) {
      UnmetGroupIs(packages, p, group);
    }
  }

  /** For every list the report is exactly the groups that the list does not meet. */
  lemma ReportListsUnmet(packages: seq<Declared>, u: Unmet)
    ensures u in Report(packages) <==> exists p, group :: NamesUnmet(packages, u, p, group)
  {
    var t := TablesOf(packages);
    var f := (p: Declared) => UnmetGroups(p, t);
    InFlatMap(f, packages, u);
    forall p | p in packages ensures u in f(p) <==> exists group :: NamesUnmet(packages, u, p, group) {
      UnmetGroupsListed(packages, p, u);
    }
    InMultiset(u, UnmetOf(packages, t));
    InMultiset(u, Report(packages));
  }

  /** The version of the last package of a name. */
  function LatestVersion(packages: seq<Declared>, name: string): Option<string> {
    var p := Latest(packages, name);
    if p.Some? then Some(p.value.version) else None
  }

  /** An entry says whose group it is, at what version, the group as it was written, and the
      version that is there of the first alternative's name. */
  predicate Describes(packages: seq<Declared>, u: Unmet, p: Declared, group: Group) {
    && u.package == p.name && u.packageVersion == p.version && u.required == group.text
    && (group.alternatives != [] ==> u.installed == LatestVersion(packages, group.alternatives[0].name))
    && (group.alternatives == [] ==> u.installed == LatestVersion(packages, ""))
  }

  lemma EntryDescribes(packages: seq<Declared>, u: Unmet, p: Declared, group: Group)
    ensures u == Entry(p, group, Installed(packages)) <==> Describes(packages, u, p, group)
  {
    InstalledIsLatest(packages, if group.alternatives == [] then "" else group.alternatives[0].name);
  }

  /** `u` reports a group of `p` that the set does not meet, or only by packages that are
      overshadowed. */
  ghost predicate Reports(packages: seq<Declared>, u: Unmet, p: Declared, group: Group) {
    && p in packages && group in p.groups
    && (!MeetsGroup(AsSet(packages), group) || Loses(packages, group))
    && Describes(packages, u, p, group)
  }

  /** The report is exactly the groups that the set does not meet, and those it loses to a
      repeated name. */
  lemma ReportMeans(packages: seq<Declared>, u: Unmet)
    ensures u in Report(packages) <==> exists p, group :: Reports(packages, u, p, group)
    ensures DistinctNames(packages) ==> forall group :: !Loses(packages, group)
  {
    ReportListsUnmet(packages, u);
    forall p, group ensures NamesUnmet(packages, u, p, group) <==> Reports(packages, u, p, group) {
      EntryDescribes(packages, u, p, group);
      GroupMetUnlessLost(packages, group);
    }
    if DistinctNames(packages) {
      forall group ensures !Loses(packages, group) {
        DistinctLoseNothing(packages, group);
      }
    }
  }

  /** The entries come by package name, and those of one name by the text of the group. */
  lemma ReportInOrder(packages: seq<Declared>, i: nat, j: nat)
    requires i < j < |Report(packages)|
    ensures var (u, v) := (Report(packages)[i], Report(packages)[j]);
            || CompareStrings(u.package, v.package) == Less
            || (u.package == v.package && (u.required == v.required || CompareStrings(u.required, v.required) == Less))
  {
    var (u, v) := (Report(packages)[i], Report(packages)[j]);
    UnmetOrder();
    SortSorted(CompareUnmet, UnmetOf(packages, TablesOf(packages)));
    assert CompareUnmet(u, v) != Greater;
    CompareStringsTotal(u.package, v.package);
    CompareStringsTotal(u.required, v.required);
  }

  lemma EmptyReportMeansMet(packages: seq<Declared>)
    ensures Report(packages) == [] <==> forall p, group :: p in packages && group in p.groups ==> GroupMet(packages, group)
  {
    if Report(packages) == [] {
      forall p, group | p in packages && group in p.groups ensures GroupMet(packages, group) {
        ReportListsUnmet(packages, Entry(p, group, Installed(packages)));
        assert !NamesUnmet(packages, Entry(p, group, Installed(packages)), p, group);
      }
    } else {
      ReportListsUnmet(packages, Report(packages)[0]);
    }
  }

  /** An empty report is closure of the set under its own dependencies, of which none is
      lost to a repeated name. */
  lemma EmptyReportMeansClosed(packages: seq<Declared>)
    ensures Report(packages) == []
       <==> Closed(AsSet(packages)) && forall p, group :: p in packages && group in p.groups ==> !Loses(packages, group)
    ensures DistinctNames(packages) ==> forall group :: !Loses(packages, group)
  {
    EmptyReportMeansMet(packages);
    forall group ensures GroupMet(packages, group) <==> MeetsGroup(AsSet(packages), group) && !Loses(packages, group) {
      GroupMetUnlessLost(packages, group);
    }
    if DistinctNames(packages) {
      forall group ensures !Loses(packages, group) {
        DistinctLoseNothing(packages, group);
      }
    }
  }

  // ----- More packages, and the union of closed lists -----

  ghost predicate NoCommonName(a: seq<Declared>, b: seq<Declared>) {
    forall p, q :: p in a && q in b ==> p.name != q.name
  }

  lemma {:induction false} LatestOfUnion(a: seq<Declared>, b: seq<Declared>, name: string)
    ensures Latest(a + b, name) == if Latest(b, name).Some? then Latest(b, name) else Latest(a, name)
  {
    if b == [] {
      assert a + b == a;
    } else {
      assert (a + b)[..|a + b| - 1] == a + b[..|b| - 1];
      LatestOfUnion(a, b[..|b| - 1], name);
    }
  }

  /** What either list meets, both together meet. */
  lemma UnionMeets(a: seq<Declared>, b: seq<Declared>, group: Group)
    requires NoCommonName(a, b) && (GroupMet(a, group) || GroupMet(b, group))
    ensures GroupMet(a + b, group)
  {
    var part := if GroupMet(a, group) then a else b;
    var atom :| atom in group.alternatives && Met(part, atom);
    LatestOfUnion(a, b, atom.name);
    LatestMeans(a, atom.name);
    LatestMeans(b, atom.name);
    if ItemMeets(part, atom) {
      var p, item :| p in AsSet(part) && item in p.items && ByItem(item, atom);
      assert p in AsSet(a + b);
    }
    assert Met(a + b, atom);
  }

  /** Adding a package of a new name leaves no group of the others newly unmet. */
  lemma FreshPackageUnmeetsNothing(packages: seq<Declared>, added: Declared, p: Declared, group: Group, u: Unmet)
    requires NoCommonName(packages, [added])
    requires p in packages && Reports(packages + [added], u, p, group)
    ensures Entry(p, group, Installed(packages)) in Report(packages)
  {
    GroupMetUnlessLost(packages + [added], group);
    if GroupMet(packages, group) {
      UnionMeets(packages, [added], group);
    }
    assert NamesUnmet(packages, Entry(p, group, Installed(packages)), p, group);
    ReportListsUnmet(packages, Entry(p, group, Installed(packages)));
  }

  /** Two closed lists whose names do not meet are closed together. */
  lemma ClosedUnion(a: seq<Declared>, b: seq<Declared>)
    requires NoCommonName(a, b) && Report(a) == [] && Report(b) == []
    ensures Report(a + b) == []
  {
    EmptyReportMeansMet(a);
    EmptyReportMeansMet(b);
    EmptyReportMeansMet(a + b);
    forall p, group | p in a + b && group in p.groups ensures GroupMet(a + b, group) {
      assert p in a || p in b;
      UnionMeets(a, b, group);
    }
  }

  // ----- The order of the packages does not matter -----

  /** A group's entry is decided by its text, as reading makes it. */
  ghost predicate TextDecides(packages: seq<Declared>) {
    forall p, g, h :: p in packages && g in p.groups && h in p.groups && g.text == h.text ==> g == h
  }

  lemma ReadTextDecides(packages: seq<Package>)
    ensures TextDecides(ReadAll(packages))
  {
  }

  /** With distinct names, the entries of a report tie only with themselves. */
  lemma EntriesDistinct(packages: seq<Declared>, u: Unmet, v: Unmet)
    requires DistinctNames(packages) && TextDecides(packages) && u in Report(packages) && v in Report(packages)
    requires CompareUnmet(u, v) == Equal
    ensures u == v
  {
    ReportMeans(packages, u);
    ReportMeans(packages, v);
    var p, group :| Reports(packages, u, p, group);
    var q, other :| Reports(packages, v, q, other);
    CompareStringsTotal(u.package, v.package);
    CompareStringsTotal(u.required, v.required);
    var i :| 0 <= i < |packages| && packages[i] == p;
    var j :| 0 <= j < |packages| && packages[j] == q;
    assert i == j;
  }

  lemma SameTables(a: seq<Declared>, b: seq<Declared>)
    requires DistinctNames(a) && DistinctNames(b) && multiset(a) == multiset(b)
    ensures Installed(a) == Installed(b) && AsSet(a) == AsSet(b)
  {
    forall p ensures p in a <==> p in b {
      InMultiset(p, a);
      InMultiset(p, b);
    }
    forall name ensures Lookup(Installed(a), name) == Lookup(Installed(b), name) {
      InstalledMeans(a, name);
      InstalledMeans(b, name);
    }
    SameLookups(Installed(a), Installed(b));
  }

  lemma SameLookups(a: InstalledTable, b: InstalledTable)
    requires forall name :: Lookup(a, name) == Lookup(b, name)
    ensures a == b
  {
    forall name ensures (name in a <==> name in b) && (name in a ==> a[name] == b[name]) {
      assert Lookup(a, name) == Lookup(b, name);
    }
  }

  lemma SameGroups(a: seq<Declared>, b: seq<Declared>, p: Declared)
    requires DistinctNames(a) && DistinctNames(b) && multiset(a) == multiset(b)
    ensures UnmetGroups(p, TablesOf(a)) == UnmetGroups(p, TablesOf(b))
  {
    SameTables(a, b);
    var ta, tb := TablesOf(a), TablesOf(b);
    forall group ensures UnmetGroup(p, group, ta) == UnmetGroup(p, group, tb) {
      SameGroup(a, b, p, group);
    }
    FlatMapCongruent((group: Group) => UnmetGroup(p, group, ta), (group: Group) => UnmetGroup(p, group, tb), p.groups);
  }

  lemma SameGroup(a: seq<Declared>, b: seq<Declared>, p: Declared, group: Group)
    requires DistinctNames(a) && DistinctNames(b) && Installed(a) == Installed(b) && AsSet(a) == AsSet(b)
    ensures UnmetGroup(p, group, TablesOf(a)) == UnmetGroup(p, group, TablesOf(b))
  {
    UnmetGroupIs(a, p, group);
    UnmetGroupIs(b, p, group);
    GroupMetUnlessLost(a, group);
    GroupMetUnlessLost(b, group);
    DistinctLoseNothing(a, group);
    DistinctLoseNothing(b, group);
  }

  /** The order in which the packages are listed has no effect on the report. */
  lemma ReportPermuted(a: seq<Declared>, b: seq<Declared>)
    requires DistinctNames(a) && DistinctNames(b) && TextDecides(a) && multiset(a) == multiset(b)
    ensures Report(a) == Report(b)
  {
    var ta, tb := TablesOf(a), TablesOf(b);
    forall p ensures UnmetGroups(p, ta) == UnmetGroups(p, tb) {
      SameGroups(a, b, p);
    }
    FlatMapCongruent((p: Declared) => UnmetGroups(p, ta), (p: Declared) => UnmetGroups(p, tb), b);
    FlatMapPermuted((p: Declared) => UnmetGroups(p, ta), a, b);
    UnmetOrder();
    SortSorted(CompareUnmet, UnmetOf(a, ta));
    SortSorted(CompareUnmet, UnmetOf(b, tb));
    forall u, v | u in Report(a) && v in Report(a) && CompareUnmet(u, v) == Equal ensures u == v {
      EntriesDistinct(a, u, v);
    }
    SortedUnique(CompareUnmet, Report(a), Report(b));
  }

  function OneRead(p: Package): seq<Declared> {
    [Read(p)]
  }

  lemma ReadOneByOne(packages: seq<Package>)
    ensures FlatMap(OneRead, packages) == ReadAll(packages)
  {
    forall i | 0 <= i < |packages| ensures OneRead(packages[i]) == [ReadAll(packages)[i]] {
      ReadAllAt(packages, i);
    }
    FlatMapOneEach(OneRead, packages, ReadAll(packages));
  }

  ghost predicate DistinctPackages(packages: seq<Package>) {
    forall i, j :: 0 <= i < j < |packages| ==> packages[i].name != packages[j].name
  }

  lemma ReadNames(packages: seq<Package>)
    requires DistinctPackages(packages)
    ensures DistinctNames(ReadAll(packages))
  {
    forall i | 0 <= i < |packages| ensures ReadAll(packages)[i].name == packages[i].name {
    }
  }

  /** Two status lists of the same packages, in whatever order, get the same report. */
  lemma UnsatisfiedPermuted(a: seq<Package>, b: seq<Package>)
    requires DistinctPackages(a) && DistinctPackages(b) && multiset(a) == multiset(b)
    ensures Report(ReadAll(a)) == Report(ReadAll(b))
  {
    FlatMapPermuted(OneRead, a, b);
    ReadOneByOne(a);
    ReadOneByOne(b);
    ReadNames(a);
    ReadNames(b);
    ReadTextDecides(a);
    ReportPermuted(ReadAll(a), ReadAll(b));
  }
}
