/** The mount table lines of the data volumes, `fstab_line` of
    crates/core/src/datavolume.rs, and what a reader of `/etc/fstab` takes from them. */
module MountTable {
  import opened DataVolumes
  import opened Lists
  import opened Text

  const OPTIONS := "defaults,nofail," + "x-systemd.device-timeout=10s"

  function FstabLine(v: DataVolume): string {
    Join(["LABEL=" + v.fsLabel, v.mount, FsName(v.fstype), OPTIONS, "0 2"], "\t")
  }

  function FstabLines(volumes: seq<DataVolume>): seq<string> {
    seq(|volumes|, i requires 0 <= i < |volumes| => FstabLine(volumes[i]))
  }

  /** The part of the table that the volumes make, one line each. */
  function FstabText(volumes: seq<DataVolume>): string {
    Ended(FstabLines(volumes))
  }

  /** The six fields a volume's line is meant to have. */
  function FstabRow(v: DataVolume): seq<string> {
    ["LABEL=" + v.fsLabel, v.mount, FsName(v.fstype), OPTIONS, "0", "2"]
  }

  // ----- Reading the table -----

  function AtSpaces(s: string): seq<string> {
    Split(s, ' ')
  }

  /** Fields stand between runs of spaces and tabs. */
  function TableFields(line: string): seq<string> {
    NonEmpty(FlatMap(AtSpaces, Split(line, '\t')))
  }

  /** A blank line and a comment hold no entry. */
  function TableEntry(line: string): seq<seq<string>> {
    var fields := TableFields(line);
    if fields == [] || (fields[0] != "" && fields[0][0] == '#') then [] else [fields]
  }

  function ReadTable(text: string): seq<seq<string>> {
    FlatMap(TableEntry, Split(text, '\n'))
  }

  predicate Unbroken(s: string) {
    ' ' !in s && '\t' !in s && '\n' !in s
  }

  lemma UnbrokenConcat(a: string, b: string)
    requires Unbroken(a) && Unbroken(b)
    ensures Unbroken(a + b)
  {
    NotInConcat(' ', a, b);
    NotInConcat('\t', a, b);
    NotInConcat('\n', a, b);
  }

  predicate OptionChar(c: char) {
    c as int > 32
  }

  lemma PrintedIsUnbroken(s: string)
    requires forall i :: 0 <= i < |s| ==> OptionChar(s[i])
    ensures Unbroken(s)
  {
  }

  lemma OptionsAreUnbroken()
    ensures Unbroken(OPTIONS) && OPTIONS != ""
  {
    var a, b := "defaults,nofail,", "x-systemd.device-timeout=10s";
    PrintedIsUnbroken(a);
    PrintedIsUnbroken(b);
    UnbrokenConcat(a, b);
  }

  lemma LabelIsUnbroken(name: string)
    requires forall i :: 0 <= i < |name| ==> LabelChar(name[i])
    ensures Unbroken("LABEL=" + name)
  {
    PrintedIsUnbroken("LABEL=");
    PrintedIsUnbroken(name);
    UnbrokenConcat("LABEL=", name);
  }

  lemma TypeIsUnbroken(fs: VolumeFs)
    ensures Unbroken(FsName(fs)) && FsName(fs) != ""
  {
    PrintedIsUnbroken(FsName(fs));
  }

  lemma FiveFields(a: string, b: string, c: string, d: string)
    requires Unbroken(a) && Unbroken(b) && Unbroken(c) && Unbroken(d)
    ensures FlatMap(AtSpaces, [a, b, c, d, "0 2"]) == [a, b, c, d, "0", "2"]
  {
    PassOverAt([a, b, c, d]);
    assert [a, b, c, d, "0 2"] == [a, b, c, d] + ["0 2"];
    FlatMapConcat(AtSpaces, [a, b, c, d], ["0 2"]);
    FlatMapOne(AtSpaces, "0 2");
    assert "0 2" == "0" + [' '] + "2";
    SplitAfter("0", ' ', "2");
    SplitWhole("2", ' ');
  }

  lemma PassOverAt(fields: seq<string>)
    requires forall f :: f in fields ==> Unbroken(f)
    ensures FlatMap(AtSpaces, fields) == fields
  {
    forall f | f in fields ensures AtSpaces(f) == [f] {
      SplitWhole(f, ' ');
    }
    FlatMapUnchanged(AtSpaces, fields);
  }

  predicate IsField(s: string) {
    s != "" && Unbroken(s)
  }

  lemma FieldsRead(a: string, b: string, c: string, d: string)
    requires IsField(a) && IsField(b) && IsField(c) && IsField(d)
    ensures TableFields(Join([a, b, c, d, "0 2"], "\t")) == [a, b, c, d, "0", "2"]
    ensures '\n' !in Join([a, b, c, d, "0 2"], "\t")
  {
    var fields := [a, b, c, d, "0 2"];
    LastFields();
    SplitJoin(fields, '\t');
    JoinFree(fields, '\n');
    FiveFields(a, b, c, d);
    NonEmptyAll([a, b, c, d, "0", "2"]);
  }

  lemma LastFields()
    ensures '\t' !in "0 2" && '\n' !in "0 2"
  {
  }

  lemma EntryOf(line: string, fields: seq<string>)
    requires TableFields(line) == fields && fields != [] && fields[0] != "" && fields[0][0] != '#'
    ensures TableEntry(line) == [fields]
  {
  }

  /** A valid volume whose mount holds no blank gives its six fields and stays one line. */
  lemma FstabLineReads(v: DataVolume)
    requires Valid(v) && Unbroken(v.mount)
    ensures TableEntry(FstabLine(v)) == [FstabRow(v)] && '\n' !in FstabLine(v)
  {
    LabelIsUnbroken(v.fsLabel);
    TypeIsUnbroken(v.fstype);
    OptionsAreUnbroken();
    var name := "LABEL=" + v.fsLabel;
    assert name[0] == 'L';
    FieldsRead(name, v.mount, FsName(v.fstype), OPTIONS);
    EntryOf(FstabLine(v), FstabRow(v));
  }

  lemma LinesRead(volumes: seq<DataVolume>)
    requires forall i :: 0 <= i < |volumes| ==> Valid(volumes[i]) && Unbroken(volumes[i].mount)
    ensures forall line :: line in FstabLines(volumes) ==> '\n' !in line
    ensures FlatMap(TableEntry, FstabLines(volumes)) == TableRows(volumes)
  {
    var lines := FstabLines(volumes);
    forall i | 0 <= i < |volumes| ensures TableEntry(lines[i]) == [FstabRow(volumes[i])] && '\n' !in lines[i] {
      FstabLineReads(volumes[i]);
    }
    FlatMapOneEach(TableEntry, lines, TableRows(volumes));
  }

  function TableRows(volumes: seq<DataVolume>): seq<seq<string>> {
    seq(|volumes|, i requires 0 <= i < |volumes| => FstabRow(volumes[i]))
  }

  lemma BlankLine()
    ensures TableEntry("") == []
  {
    SplitWhole("", '\t');
    FlatMapOne(AtSpaces, "");
    SplitWhole("", ' ');
    assert [""][1..] == [];
    assert NonEmpty([""]) == [];
  }

  lemma UnbrokenReadsBack(volumes: seq<DataVolume>)
    requires forall i :: 0 <= i < |volumes| ==> Valid(volumes[i]) && Unbroken(volumes[i].mount)
    ensures ReadTable(FstabText(volumes)) == TableRows(volumes)
  {
    LinesRead(volumes);
    SplitEnded(FstabLines(volumes));
    FlatMapConcat(TableEntry, FstabLines(volumes), [""]);
    FlatMapOne(TableEntry, "");
    BlankLine();
  }

  lemma PieceWithout(s: string, sep: char, piece: string, c: char)
    requires piece in Split(s, sep) && c !in s
    ensures c !in piece && sep !in piece
  {
    JoinSplit(s, sep);
    PieceChars(Split(s, sep), [sep], piece, c);
  }

  lemma LineFieldsUnbroken(line: string, field: string)
    requires '\n' !in line && field in TableFields(line)
    ensures Unbroken(field)
  {
    var pieces := Split(line, '\t');
    NonEmptyFrom(FlatMap(AtSpaces, pieces), field);
    InFlatMap(AtSpaces, pieces, field);
    var piece :| piece in pieces && field in AtSpaces(piece);
    PieceWithout(line, '\t', piece, '\n');
    PieceWithout(piece, ' ', field, '\n');
    PieceWithout(piece, ' ', field, '\t');
  }

  /** Every field read from a table is free of blanks. */
  lemma FieldsAreUnbroken(text: string, row: seq<string>, field: string)
    requires row in ReadTable(text) && field in row
    ensures Unbroken(field)
  {
    InFlatMap(TableEntry, Split(text, '\n'), row);
    var line :| line in Split(text, '\n') && row in TableEntry(line);
    JoinSplit(text, '\n');
    LineFieldsUnbroken(line, field);
  }

  /** For a list that passes validation, the mount table reads every volume back, in order
      and field for field, exactly when no mount holds a space, a tab or a newline. */
  lemma FstabReadsBackExactlyWhenUnbroken(volumes: seq<DataVolume>)
    requires ValidateAll(volumes).None?
    ensures ReadTable(FstabText(volumes)) == TableRows(volumes)
        <==> forall i :: 0 <= i < |volumes| ==> Unbroken(volumes[i].mount)
  {
    ValidateAllMeans(volumes);
    if forall i :: 0 <= i < |volumes| ==> Unbroken(volumes[i].mount) {
      UnbrokenReadsBack(volumes);
    }
    if ReadTable(FstabText(volumes)) == TableRows(volumes) {
      forall i | 0 <= i < |volumes| ensures Unbroken(volumes[i].mount) {
        assert TableRows(volumes)[i] == FstabRow(volumes[i]);
        assert FstabRow(volumes[i])[1] == volumes[i].mount;
        FieldsAreUnbroken(FstabText(volumes), FstabRow(volumes[i]), volumes[i].mount);
      }
    }
  }

  /** A mount with a space passes, reads back from the config file, and breaks the table. */
  lemma SpaceBreaksOnlyTheTable()
    ensures
      var v := DataVolume(Kind(Nvme), "data", Ext4, "/a b", IfBlank);
      && ValidateAll([v]).None?
      && ReadConfig(Rendered([v])) == Rows([v])
      && ReadTable(FstabText([v])) != TableRows([v])
  {
    var v := DataVolume(Kind(Nvme), "data", Ext4, "/a b", IfBlank);
    assert Valid(v);
    ValidateAllMeans([v]);
    assert '\t' !in v.mount && '\n' !in v.mount;
    assert Clean(v);
    ReadsBackExactlyWhenClean([v]);
    assert v.mount[2] == ' ' && !Unbroken([v][0].mount);
    FstabReadsBackExactlyWhenUnbroken([v]);
  }
}
