/** What the first-boot hook (features/data-volume) makes of a row of the rendered file, by
    the words it knows, against the declaration in crates/core/src/datavolume.rs. */
module VolumeReadings {
  import opened DataVolumes
  import opened MountEscapes
  import opened MountTable
  import opened Text
  import opened Wrappers

  /** The hook's variables. A field that is missing is empty, and the last one takes the
      words that are left over, so it is one word only where there are five. */
  function FieldAt(row: seq<string>, i: nat): string {
    if i < |row| then row[i] else ""
  }

  /** The disks the hook looks among: one node, or those of a transport it knows. */
  function MatchRead(word: string): Option<VolumeMatch> {
    if StartsWith(word, "/dev/") then Some(Device(word))
    else if word == "nvme" then Some(Kind(Nvme))
    else if word == "sata" then Some(Kind(Sata))
    else if word == "usb" then Some(Kind(Usb))
    else if word == "mmc" then Some(Kind(Mmc))
    else None
  }

  function FsRead(word: string): Option<VolumeFs> {
    if word == "ext4" then Some(Ext4) else None
  }

  /** The hook formats a blank disk on one word and leaves it alone on any other. */
  function CreateRead(row: seq<string>): CreatePolicy {
    if |row| == 5 && row[4] == "if-blank" then IfBlank else Never
  }

  /** The volume the hook looks for, where it knows the words. */
  function VolumeRead(row: seq<string>): Option<DataVolume> {
    var (m, fs) := (MatchRead(FieldAt(row, 0)), FsRead(FieldAt(row, 2)));
    if m.None? || fs.None? then None
    else Some(DataVolume(m.value, FieldAt(row, 1), fs.value, FieldAt(row, 3), CreateRead(row)))
  }

  function VolumesRead(rows: seq<seq<string>>): seq<Option<DataVolume>> {
    seq(|rows|, i requires 0 <= i < |rows| => VolumeRead(rows[i]))
  }

  function AllRead(volumes: seq<DataVolume>): seq<Option<DataVolume>> {
    seq(|volumes|, i requires 0 <= i < |volumes| => Some(volumes[i]))
  }

  lemma MatchReads(m: VolumeMatch)
    requires m.Device? ==> StartsWith(m.node, "/dev/")
    ensures MatchRead(MatchText(m)) == Some(m)
  {
    if m.Kind? {
      assert MatchText(m)[0] != '/';
    }
  }

  lemma WordsRead(fs: VolumeFs, create: CreatePolicy)
    ensures FsRead(FsName(fs)) == Some(fs)
    ensures CreateName(create) == "if-blank" <==> create == IfBlank
  {
  }

  /** The row of a valid volume says what was declared. */
  lemma RowMeans(v: DataVolume)
    requires Valid(v)
    ensures VolumeRead(Row(v)) == Some(v)
  {
    var row := Row(v);
    assert |row| == 5 && row[0] == MatchText(v.match_) && row[2] == FsName(v.fstype) && row[4] == CreateName(v.create);
    MatchReads(v.match_);
    WordsRead(v.fstype, v.create);
  }

  /** A row that says what was declared is the row. */
  lemma ReadIsClean(text: string, row: seq<string>, v: DataVolume)
    requires row in ReadConfig(text) && VolumeRead(row) == Some(v)
    ensures Clean(v)
  {
    JoinSplit(text, '\n');
    FieldIsFree(text, row, 3);
    FieldIsFree(text, row, 0);
    if v.match_.Device? {
      assert v.match_.node == FieldAt(row, 0);
    }
  }

  lemma FieldIsFree(text: string, row: seq<string>, i: nat)
    requires row in ReadConfig(text)
    ensures '\t' !in FieldAt(row, i) && '\n' !in FieldAt(row, i)
  {
    JoinSplit(text, '\n');
    if i < |row| {
      ReadWords(Split(text, '\n'), row, row[i]);
    }
  }

  /** For a list that passes validation, the hook sets up the volumes that were declared, in
      order, each on the disk, with the label, the file system, the mount and the policy it
      was declared with, exactly when no mount or node holds a tab or a newline. */
  lemma HookReadsTheDeclarations(volumes: seq<DataVolume>)
    requires ValidateAll(volumes).None?
    ensures VolumesRead(ReadConfig(Rendered(volumes))) == AllRead(volumes)
        <==> forall i :: 0 <= i < |volumes| ==> Clean(volumes[i])
  {
    ValidateAllMeans(volumes);
    var rows := ReadConfig(Rendered(volumes));
    if forall i :: 0 <= i < |volumes| ==> Clean(volumes[i]) {
      ReadsBackExactlyWhenClean(volumes);
      forall i | 0 <= i < |volumes| ensures VolumeRead(rows[i]) == Some(volumes[i]) {
        RowMeans(volumes[i]);
      }
    }
    if VolumesRead(rows) == AllRead(volumes) {
      assert |rows| == |volumes|;
      forall i | 0 <= i < |volumes| ensures Clean(volumes[i]) {
        assert VolumeRead(rows[i]) == VolumesRead(rows)[i] == AllRead(volumes)[i];
        ReadIsClean(Rendered(volumes), rows[i], volumes[i]);
      }
    }
  }

  // ----- The mount table -----

  /** What a row of the mount table asks for: the file system of a label at a mount, its
      options, whether it is dumped and in which pass it is checked. */
  datatype Mounting = Mounting(fsLabel: string, mount: string, fstype: VolumeFs, options: seq<string>, dump: string, pass: string)

  function MountingOf(row: seq<string>): Option<Mounting> {
    if |row| != 6 || !StartsWith(row[0], "LABEL=") || FsRead(row[2]).None? then None
    else Some(Mounting(row[0][6..], row[1], FsRead(row[2]).value, Split(row[3], ','), row[4], row[5]))
  }

  function MountingsOf(rows: seq<seq<string>>): seq<Option<Mounting>> {
    seq(|rows|, i requires 0 <= i < |rows| => MountingOf(rows[i]))
  }

  const DEFAULTS := "defaults"
  const NOFAIL := "nofail"
  const TIMEOUT := "x-systemd.device-timeout=10s"

  /** A data volume is mounted by its label, its absence fails no boot, nothing waits for it
      longer than ten seconds, it is not dumped, and it is checked after the root. */
  function Wanted(v: DataVolume): Mounting {
    Mounting(v.fsLabel, v.mount, v.fstype, [DEFAULTS, NOFAIL, TIMEOUT], "0", "2")
  }

  function AllWanted(volumes: seq<DataVolume>): seq<Option<Mounting>> {
    seq(|volumes|, i requires 0 <= i < |volumes| => Some(Wanted(volumes[i])))
  }

  lemma ThreeOptions(options: string, a: string, b: string, c: string)
    requires ',' !in a && ',' !in b && ',' !in c
    ensures Split(options, ',') == [a, b, c] <==> options == a + "," + (b + "," + c)
  {
    var (parts, two) := ([a, b, c], [b, c]);
    SplitJoin(parts, ',');
    JoinSplit(options, ',');
    assert parts[1..] == two && two[1..] == [c];
    assert Join(two, [',']) == b + [','] + c;
  }

  lemma OptionsText()
    ensures OPTIONS == DEFAULTS + "," + (NOFAIL + "," + TIMEOUT)
    ensures ',' !in DEFAULTS && ',' !in NOFAIL && ',' !in TIMEOUT
  {
    PlainText(DEFAULTS);
    PlainText(NOFAIL);
    PlainText(TIMEOUT);
  }

  lemma OptionsRead(options: string, a: string, b: string, c: string)
    requires a == DEFAULTS && b == NOFAIL && c == TIMEOUT
    ensures Split(options, ',') == [a, b, c] <==> options == OPTIONS
  {
    OptionsText();
    ThreeOptions(options, a, b, c);
  }

  lemma PlainText(s: string)
    requires forall i :: 0 <= i < |s| ==> s[i] != ','
    ensures ',' !in s
  {
  }

  lemma LabelRead(field: string, name: string)
    ensures StartsWith(field, "LABEL=") && field[6..] == name <==> field == "LABEL=" + name
  {
    if StartsWith(field, "LABEL=") && field[6..] == name {
      assert field == field[..6] + field[6..];
    }
  }

  lemma FsReads(word: string, fs: VolumeFs)
    ensures FsRead(word) == Some(fs) <==> word == FsName(fs)
  {
    assert fs == Ext4;
  }

  lemma RowMounts(row: seq<string>, v: DataVolume)
    ensures MountingOf(row) == Some(Wanted(v)) <==> row == FstabRow(v)
  {
    if |row| == 6 {
      LabelRead(row[0], v.fsLabel);
      OptionsRead(row[3], DEFAULTS, NOFAIL, TIMEOUT);
      assert row == [row[0], row[1], row[2], row[3], row[4], row[5]];
      FsReads(row[2], v.fstype);
    }
  }

  /** For a list that passes validation, the mount table, its escapes decoded, mounts every
      volume as wanted exactly when no mount holds a space, a tab, a newline or an escape. */
  lemma TableMountsTheDeclarations(volumes: seq<DataVolume>)
    requires ValidateAll(volumes).None?
    ensures MountingsOf(DecodedTable(FstabText(volumes))) == AllWanted(volumes)
        <==> forall i :: 0 <= i < |volumes| ==> Unbroken(volumes[i].mount) && NoCode(volumes[i].mount)
  {
    var rows := DecodedTable(FstabText(volumes));
    FstabReadsBackExactlyWhenPlain(volumes);
    forall i | 0 <= i < |rows| && i < |volumes| ensures MountingOf(rows[i]) == Some(Wanted(volumes[i])) <==> rows[i] == FstabRow(volumes[i]) {
      RowMounts(rows[i], volumes[i]);
    }
    RowByRow(rows, volumes);
  }

  lemma RowByRow(rows: seq<seq<string>>, volumes: seq<DataVolume>)
    requires forall i :: 0 <= i < |rows| && i < |volumes| ==>
               (MountingOf(rows[i]) == Some(Wanted(volumes[i])) <==> rows[i] == FstabRow(volumes[i]))
    ensures MountingsOf(rows) == AllWanted(volumes) <==> rows == TableRows(volumes)
  {
    if MountingsOf(rows) == AllWanted(volumes) {
      assert |rows| == |volumes|;
      forall i | 0 <= i < |rows| ensures rows[i] == FstabRow(volumes[i]) {
        assert MountingsOf(rows)[i] == AllWanted(volumes)[i];
      }
    }
  }

  // ----- What a refusal says -----

  /** What each fault is found for. */
  predicate Shows(v: DataVolume, fault: Fault) {
    match fault
    case MountNotAbsolute => v.mount == "" || v.mount[0] != '/'
    case MountIsRoot => v.mount == "/"
    case MountTrailingSlash => |v.mount| > 1 && v.mount[|v.mount| - 1] == '/'
    case LabelEmpty => |v.fsLabel| == 0
    case LabelTooLong => |v.fsLabel| > 16
    case LabelCharacter => exists c :: c in v.fsLabel && !LabelChar(c)
    case NodeNotUnderDev => v.match_.Device? && !StartsWith(v.match_.node, "/dev/")
    case LabelTwice(_) => false
    case MountTwice(_) => false
  }

  /** A declaration is refused for something it shows. */
  lemma RefusalShows(v: DataVolume)
    requires Validate(v).Some?
    ensures Shows(v, Validate(v).value)
  {
  }

  /** A list is refused for what one of its declarations shows, or for a label or a mount
      that two of them share where all are valid. */
  lemma RefusedList(volumes: seq<DataVolume>)
    requires ValidateAll(volumes).Some?
    ensures
      var fault := ValidateAll(volumes).value;
      || (exists v :: v in volumes && Shows(v, fault))
      || ((forall i :: 0 <= i < |volumes| ==> Valid(volumes[i]))
          && exists i, j :: 0 <= i < j < |volumes| && Shares(volumes[i], volumes[j], fault))
  {
    FirstInvalidMeans(volumes);
    if FirstInvalid(volumes).Some? {
      InvalidShows(volumes);
    } else {
      ClashShares(volumes, |volumes|);
    }
  }

  predicate Shares(v: DataVolume, other: DataVolume, fault: Fault) {
    || (fault == LabelTwice(v.fsLabel) && v.fsLabel == other.fsLabel)
    || (fault == MountTwice(v.mount) && v.mount == other.mount)
  }

  lemma {:induction false} InvalidShows(volumes: seq<DataVolume>)
    requires FirstInvalid(volumes).Some?
    ensures exists v :: v in volumes && Shows(v, FirstInvalid(volumes).value)
  {
    var front, last := volumes[..|volumes| - 1], volumes[|volumes| - 1];
    if FirstInvalid(front).Some? {
      InvalidShows(front);
    } else {
      RefusalShows(last);
    }
  }

  lemma {:induction false} ClashShares(volumes: seq<DataVolume>, n: nat)
    requires n <= |volumes| && FirstClash(volumes, n).Some?
    ensures exists i, j :: 0 <= i < j < |volumes| && Shares(volumes[i], volumes[j], FirstClash(volumes, n).value)
  {
    if FirstClash(volumes, n - 1).Some? {
      ClashShares(volumes, n - 1);
    } else {
      var j := ClashWithShares(volumes[n - 1], volumes[n..]);
      assert volumes[n..][j] == volumes[n + j];
    }
  }

  lemma {:induction false} ClashWithShares(v: DataVolume, others: seq<DataVolume>) returns (j: nat)
    requires FirstClashWith(v, others).Some?
    ensures j < |others| && Shares(v, others[j], FirstClashWith(v, others).value)
  {
    var front := others[..|others| - 1];
    if FirstClashWith(v, front).Some? {
      j := ClashWithShares(v, front);
    } else {
      j := |others| - 1;
    }
  }
}
