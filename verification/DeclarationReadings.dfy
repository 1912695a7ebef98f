/** What the dependency check of crates/core/src/debdep.rs reads of a package whose fields are
    written as section 7.1 of Debian Policy has them. */
module DeclarationReadings {
  import opened DependencyClosure
  import opened DependencyFields

  /** A `Provides` field: alternatives one by one. */
  function Alone(items: seq<Alternative>): seq<seq<Alternative>> {
    seq(|items|, i requires 0 <= i < |items| => [items[i]])
  }

  /** A package as its stanza is written. */
  function Stanza(name: string, version: string, groups: seq<seq<Alternative>>, items: seq<Alternative>): Package {
    Package(name, version, PrintField(groups), PrintField(Alone(items)))
  }

  lemma GroupsRead(groups: seq<seq<Alternative>>)
    requires forall i :: 0 <= i < |groups| ==> WellFormedGroup(groups[i])
    ensures var read := ReadGroups(SplitTop(PrintField(groups), ','));
            && |read| == |groups|
            && forall i :: 0 <= i < |groups| ==> read[i] == Group(PrintGroup(groups[i]), Atoms(groups[i]))
  {
    FieldSplits(groups);
    forall i | 0 <= i < |groups| ensures ReadGroup(PrintGroup(groups[i])) == Atoms(groups[i]) {
      GroupReads(groups[i]);
    }
  }

  /** What an item provides: its name, at a version only where it is written with one. */
  predicate IsItem(item: Item, a: Alternative) {
    && item.name == a.atom.name
    && (a.atom.constraint.Some? ==> item.version == a.atom.constraint.value.version)
    && (a.atom.constraint.None? ==> item.version == "")
  }

  lemma ItemsRead(items: seq<Alternative>)
    requires forall i :: 0 <= i < |items| ==> WellFormed(items[i])
    ensures var read := ReadItems(SplitTop(PrintField(Alone(items)), ','));
            && |read| == |items|
            && forall i :: 0 <= i < |items| ==> IsItem(read[i], items[i])
  {
    FieldSplits(Alone(items));
    var texts := PrintGroups(Alone(items));
    forall i | 0 <= i < |items| ensures IsItem(ReadItem(texts[i]), items[i]) {
      assert texts[i] == PrintGroup([items[i]]);
      ItemReads(items[i]);
    }
  }

  lemma ItemReads(a: Alternative)
    requires WellFormed(a)
    ensures IsItem(ReadItem(PrintGroup([a])), a)
  {
    assert PrintAlternatives([a]) == [PrintAlternative(a)];
    AlternativeReads(a);
    AtomIsItem(PrintAlternative(a), a.atom, a);
  }

  lemma AtomIsItem(text: string, atom: Atom, a: Alternative)
    requires ParseAtom(text) == atom == a.atom
    ensures IsItem(ReadItem(text), a)
  {
  }

  /** The check reads of a stanza what it was written from: the name and version, each group
      with its text and its alternatives, and each item it provides. */
  lemma DeclarationReads(name: string, version: string, groups: seq<seq<Alternative>>, items: seq<Alternative>)
    requires forall i :: 0 <= i < |groups| ==> WellFormedGroup(groups[i])
    requires forall i :: 0 <= i < |items| ==> WellFormed(items[i])
    ensures var d := Read(Stanza(name, version, groups, items));
            && d.name == name && d.version == version
            && |d.groups| == |groups| && |d.items| == |items|
            && (forall i :: 0 <= i < |groups| ==> d.groups[i] == Group(PrintGroup(groups[i]), Atoms(groups[i])))
            && (forall i :: 0 <= i < |items| ==> IsItem(d.items[i], items[i]))
  {
    GroupsRead(groups);
    ItemsRead(items);
  }
}
