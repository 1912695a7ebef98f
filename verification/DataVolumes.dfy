/** Data-volume declarations, crates/core/src/datavolume.rs, and what the first-boot hook
    (features/data-volume) reads back from the rendered file. */
module DataVolumes {
  import opened Text
  import opened Wrappers

  datatype DiskKind = Nvme | Sata | Usb | Mmc

  datatype VolumeMatch = Kind(kind: DiskKind) | Device(node: string)

  datatype VolumeFs = Ext4

  datatype CreatePolicy = IfBlank | Never

  datatype DataVolume = DataVolume(
    match_: VolumeMatch, fsLabel: string, fstype: VolumeFs, mount: string, create: CreatePolicy)

  // ----- Validation -----

  const MAX_LABEL_BYTES := 16

  datatype Fault =
    | MountNotAbsolute | MountIsRoot | MountTrailingSlash
    | LabelEmpty | LabelTooLong | LabelCharacter | NodeNotUnderDev
    | LabelTwice(fsLabel: string) | MountTwice(mount: string)

  predicate LabelChar(c: char) {
    IsAlphanumeric(c) || c == '-' || c == '_' || c == '.'
  }

  /** The checks of one declaration, in order; None is a pass. */
  function Validate(v: DataVolume): Option<Fault> {
    if !StartsWith(v.mount, "/") then Some(MountNotAbsolute)
    else if v.mount == "/" then Some(MountIsRoot)
    else if |v.mount| > 1 && EndsWith(v.mount, "/") then Some(MountTrailingSlash)
    else if v.fsLabel == "" then Some(LabelEmpty)
    else if |v.fsLabel| > MAX_LABEL_BYTES then Some(LabelTooLong)
    else if exists i :: 0 <= i < |v.fsLabel| && !LabelChar(v.fsLabel[i]) then Some(LabelCharacter)
    else if v.match_.Device? && !StartsWith(v.match_.node, "/dev/") then Some(NodeNotUnderDev)
    else None
  }

  function FirstInvalid(volumes: seq<DataVolume>): Option<Fault> {
    if volumes == [] then None
    else FirstInvalid(volumes[..|volumes| - 1]).Or(Validate(volumes[|volumes| - 1]))
  }

  function Clash(v: DataVolume, other: DataVolume): Option<Fault> {
    if v.fsLabel == other.fsLabel then Some(LabelTwice(v.fsLabel))
    else if v.mount == other.mount then Some(MountTwice(v.mount))
    else None
  }

  /** The first of `others` that clashes with `v`. */
  function FirstClashWith(v: DataVolume, others: seq<DataVolume>): Option<Fault> {
    if others == [] then None
    else FirstClashWith(v, others[..|others| - 1]).Or(Clash(v, others[|others| - 1]))
  }

  /** The first clash among the first `n` volumes and all that follow each of them. */
  function FirstClash(volumes: seq<DataVolume>, n: nat): Option<Fault>
    requires n <= |volumes|
  {
    if n == 0 then None
    else FirstClash(volumes, n - 1).Or(FirstClashWith(volumes[n - 1], volumes[n..]))
  }

  function ValidateAll(volumes: seq<DataVolume>): Option<Fault> {
    FirstInvalid(volumes).Or(FirstClash(volumes, |volumes|))
  }

  lemma {:induction false} InvalidPrefix(volumes: seq<DataVolume>, n: nat)
    requires n <= |volumes| && FirstInvalid(volumes[..n]).Some?
    ensures FirstInvalid(volumes) == FirstInvalid(volumes[..n])
  {
    if n < |volumes| {
      assert volumes[..|volumes| - 1][..n] == volumes[..n];
      InvalidPrefix(volumes[..|volumes| - 1], n);
    } else {
      assert volumes[..n] == volumes;
    }
  }

  lemma {:induction false} ClashPrefix(v: DataVolume, others: seq<DataVolume>, n: nat)
    requires n <= |others| && FirstClashWith(v, others[..n]).Some?
    ensures FirstClashWith(v, others) == FirstClashWith(v, others[..n])
  {
    if n < |others| {
      assert others[..|others| - 1][..n] == others[..n];
      ClashPrefix(v, others[..|others| - 1], n);
    } else {
      assert others[..n] == others;
    }
  }

  lemma {:induction false} ClashSettled(volumes: seq<DataVolume>, m: nat, n: nat)
    requires m <= n <= |volumes| && FirstClash(volumes, m).Some?
    ensures FirstClash(volumes, n) == FirstClash(volumes, m)
  {
    if m < n {
      ClashSettled(volumes, m, n - 1);
    }
  }

  /** Each entry on its own, then every pair, stopping at the first fault. */
  method CheckAll(volumes: seq<DataVolume>) returns (r: Option<Fault>)
    ensures r == ValidateAll(volumes)
  {
    for i := 0 to |volumes|
      invariant FirstInvalid(volumes[..i]).None?
    {
      FrontOfTake(volumes, i);
      var fault := Validate(volumes[i]);
      if fault.Some? {
        InvalidPrefix(volumes, i + 1);
        return fault;
      }
    }
    assert volumes[..|volumes|] == volumes;
    r := CheckPairs(volumes);
  }

  method CheckPairs(volumes: seq<DataVolume>) returns (r: Option<Fault>)
    ensures r == FirstClash(volumes, |volumes|)
  {
    for i := 0 to |volumes|
      invariant FirstClash(volumes, i).None?
    {
      var rest := volumes[i + 1..];
      for j := 0 to |rest|
        invariant FirstClashWith(volumes[i], rest[..j]).None?
      {
        FrontOfTake(rest, j);
        var fault := Clash(volumes[i], rest[j]);
        if fault.Some? {
          ClashPrefix(volumes[i], rest, j + 1);
          ClashSettled(volumes, i + 1, |volumes|);
          return fault;
        }
      }
      assert rest[..|rest|] == rest;
    }
    return None;
  }

  // ----- What a passed list is -----

  predicate Valid(v: DataVolume) {
    && v.mount != "" && v.mount[0] == '/' && v.mount != "/" && v.mount[|v.mount| - 1] != '/'
    && 1 <= |v.fsLabel| <= MAX_LABEL_BYTES && (forall i :: 0 <= i < |v.fsLabel| ==> LabelChar(v.fsLabel[i]))
    && (v.match_.Device? ==> StartsWith(v.match_.node, "/dev/"))
  }

  ghost predicate Sound(volumes: seq<DataVolume>) {
    && (forall i :: 0 <= i < |volumes| ==> Valid(volumes[i]))
    && (forall i, j :: 0 <= i < j < |volumes| ==>
          volumes[i].fsLabel != volumes[j].fsLabel && volumes[i].mount != volumes[j].mount)
  }

  lemma ValidateMeans(v: DataVolume)
    ensures Validate(v).None? <==> Valid(v)
  {
  }

  lemma {:induction false} FirstInvalidMeans(volumes: seq<DataVolume>)
    ensures FirstInvalid(volumes).None? <==> forall i :: 0 <= i < |volumes| ==> Valid(volumes[i])
  {
    if volumes != [] {
      FirstInvalidMeans(volumes[..|volumes| - 1]);
      ValidateMeans(volumes[|volumes| - 1]);
    }
  }

  lemma {:induction false} FirstClashWithMeans(v: DataVolume, others: seq<DataVolume>)
    ensures FirstClashWith(v, others).None? <==>
      forall j :: 0 <= j < |others| ==> v.fsLabel != others[j].fsLabel && v.mount != others[j].mount
  {
    if others != [] {
      FirstClashWithMeans(v, others[..|others| - 1]);
    }
  }

  lemma {:induction false} FirstClashMeans(volumes: seq<DataVolume>, n: nat)
    requires n <= |volumes|
    ensures FirstClash(volumes, n).None? <==>
      forall i, j :: 0 <= i < n && i < j < |volumes| ==>
        volumes[i].fsLabel != volumes[j].fsLabel && volumes[i].mount != volumes[j].mount
  {
    if n > 0 {
      FirstClashMeans(volumes, n - 1);
      FirstClashWithMeans(volumes[n - 1], volumes[n..]);
      assert forall j :: n <= j < |volumes| ==> volumes[j] == volumes[n..][j - n];
    }
  }

  /** A list passes exactly when every entry is valid and no label or mount repeats. */
  lemma ValidateAllMeans(volumes: seq<DataVolume>)
    ensures ValidateAll(volumes).None? <==> Sound(volumes)
  {
    FirstInvalidMeans(volumes);
    FirstClashMeans(volumes, |volumes|);
  }

  // ----- Rendering -----

  const NOTE := "# Generated by boot2deb; " + "read once by the data-volume " + "first-boot hook."
  const COLUMNS := "# <match>\t<label>\t" + "<fstype>\t<mount>\t<create>"

  const HEADER := [NOTE, COLUMNS]

  function KindName(k: DiskKind): string {
    match k
    case Nvme => "nvme"
    case Sata => "sata"
    case Usb => "usb"
    case Mmc => "mmc"
  }

  function MatchText(m: VolumeMatch): string {
    match m
    case Kind(k) => KindName(k)
    case Device(node) => node
  }

  function FsName(fs: VolumeFs): string {
    "ext4"
  }

  function CreateName(c: CreatePolicy): string {
    if c == IfBlank then "if-blank" else "never"
  }

  function Row(v: DataVolume): seq<string> {
    [MatchText(v.match_), v.fsLabel, FsName(v.fstype), v.mount, CreateName(v.create)]
  }

  function Rows(volumes: seq<DataVolume>): seq<seq<string>> {
    seq(|volumes|, i requires 0 <= i < |volumes| => Row(volumes[i]))
  }

  function DataLine(v: DataVolume): string {
    Join(Row(v), "\t")
  }

  function DataLines(volumes: seq<DataVolume>): seq<string> {
    seq(|volumes|, i requires 0 <= i < |volumes| => DataLine(volumes[i]))
  }

  function Rendered(volumes: seq<DataVolume>): string {
    Ended(HEADER + DataLines(volumes))
  }

  lemma {:induction false} EndedNext(lines: seq<string>, line: string)
    ensures Ended(lines + [line]) == Ended(lines) + (line + "\n")
  {
    if lines == [] {
      assert [line][1..] == [] && [] + [line] == [line];
    } else {
      FrontOfConcat(lines, [line]);
      EndedNext(lines[1..], line);
      Associative(lines[0] + "\n", Ended(lines[1..]), line + "\n");
    }
  }

  lemma RenderedNext(volumes: seq<DataVolume>, i: nat)
    requires i < |volumes|
    ensures Rendered(volumes[..i + 1]) == Rendered(volumes[..i]) + (DataLine(volumes[i]) + "\n")
  {
    assert HEADER + DataLines(volumes[..i + 1]) == (HEADER + DataLines(volumes[..i])) + [DataLine(volumes[i])];
    EndedNext(HEADER + DataLines(volumes[..i]), DataLine(volumes[i]));
  }

  lemma EndedTwo(a: string, b: string)
    ensures Ended([a, b]) == a + "\n" + (b + "\n")
  {
    assert [a, b][1..] == [b] && [b][1..] == [];
    assert Ended([b]) == b + "\n" + Ended([]);
  }

  lemma RenderedNone()
    ensures Rendered([]) == NOTE + "\n" + (COLUMNS + "\n")
  {
    assert HEADER + DataLines([]) == [NOTE, COLUMNS];
    EndedTwo(NOTE, COLUMNS);
  }

  /** The header, then a line pushed per volume. */
  method RenderConfig(volumes: seq<DataVolume>) returns (out: string)
    ensures out == Rendered(volumes)
  {
    out := NOTE + "\n" + (COLUMNS + "\n");
    RenderedNone();
    assert volumes[..0] == [];
    for i := 0 to |volumes|
      invariant out == Rendered(volumes[..i])
    {
      RenderedNext(volumes, i);
      out := out + (DataLine(volumes[i]) + "\n");
    }
    assert volumes[..|volumes|] == volumes;
  }

  // ----- What the hook reads back -----

  function NonEmpty(pieces: seq<string>): seq<string> {
    if pieces == [] then []
    else (if pieces[0] == "" then [] else [pieces[0]]) + NonEmpty(pieces[1..])
  }

  /** The shell's `read` with only a tab in IFS: runs of tabs separate. */
  function Words(line: string): seq<string> {
    NonEmpty(Split(line, '\t'))
  }

  /** What the hook's loop takes from a line: nothing from a blank one or a comment. */
  function RowOf(line: string): seq<seq<string>> {
    var words := Words(line);
    if words == [] || (words[0] != "" && words[0][0] == '#') then [] else [words]
  }

  function RowsOf(lines: seq<string>): seq<seq<string>> {
    if lines == [] then [] else RowOf(lines[0]) + RowsOf(lines[1..])
  }

  function ReadConfig(text: string): seq<seq<string>> {
    RowsOf(Split(text, '\n'))
  }

  /** What the renderer relies on and validation does not check. */
  predicate Clean(v: DataVolume) {
    && '\t' !in v.mount && '\n' !in v.mount
    && (v.match_.Device? ==> '\t' !in v.match_.node && '\n' !in v.match_.node)
  }

  lemma {:induction false} SplitEnded(lines: seq<string>)
    requires forall line :: line in lines ==> '\n' !in line
    ensures Split(Ended(lines), '\n') == lines + [""]
  {
    if lines == [] {
      SplitWhole("", '\n');
    } else {
      SplitEnded(lines[1..]);
      SplitAfter(lines[0], '\n', Ended(lines[1..]));
      assert [lines[0]] + (lines[1..] + [""]) == lines + [""];
    }
  }

  lemma {:induction false} NonEmptyAll(pieces: seq<string>)
    requires forall p :: p in pieces ==> p != ""
    ensures NonEmpty(pieces) == pieces
  {
    if pieces != [] {
      assert pieces == [pieces[0]] + pieces[1..];
      assert pieces[0] in pieces && forall p :: p in pieces[1..] ==> p in pieces;
      NonEmptyAll(pieces[1..]);
    }
  }

  lemma LabelIsPlain(s: string)
    requires forall i :: 0 <= i < |s| ==> LabelChar(s[i])
    ensures '\t' !in s && '\n' !in s
  {
  }

  lemma FixedTexts(v: DataVolume)
    ensures var s := FsName(v.fstype); s != "" && '\t' !in s && '\n' !in s
    ensures var s := CreateName(v.create); s != "" && '\t' !in s && '\n' !in s
    ensures v.match_.Kind? ==>
      var s := MatchText(v.match_); s != "" && s[0] != '#' && '\t' !in s && '\n' !in s
  {
    LabelIsPlain(FsName(v.fstype));
    LabelIsPlain(CreateName(v.create));
    if v.match_.Kind? {
      LabelIsPlain(MatchText(v.match_));
    }
  }

  /** The fields of a valid, clean volume: none empty, none with a tab or a newline. */
  lemma RowIsPlain(v: DataVolume)
    requires Valid(v) && Clean(v)
    ensures forall field :: field in Row(v) ==> field != "" && '\t' !in field && '\n' !in field
    ensures Row(v)[0] != "" && Row(v)[0][0] != '#'
  {
    FixedTexts(v);
    LabelIsPlain(v.fsLabel);
    if v.match_.Device? {
      assert v.match_.node[..5][0] == '/';
    }
  }

  lemma DataLineReads(v: DataVolume)
    requires Valid(v) && Clean(v)
    ensures RowOf(DataLine(v)) == [Row(v)] && '\n' !in DataLine(v)
  {
    RowIsPlain(v);
    SplitJoin(Row(v), '\t');
    NonEmptyAll(Row(v));
    JoinFree(Row(v), '\n');
  }

  lemma {:induction false} JoinFree(fields: seq<string>, c: char)
    requires c != '\t' && forall field :: field in fields ==> c !in field
    ensures c !in Join(fields, "\t")
  {
    if |fields| > 1 {
      JoinFree(fields[1..], c);
    }
  }

  lemma CommentReadsNothing(line: string)
    requires line != "" && line[0] == '#'
    ensures RowOf(line) == []
  {
    var i := Find(line, '\t');
    var first := Split(line, '\t')[0];
    assert first == line[..i] && first[0] == '#';
  }

  predicate WithoutNewline(s: string) {
    forall i :: 0 <= i < |s| ==> s[i] != '\n'
  }

  lemma WithoutNewlineConcat(a: string, b: string)
    requires WithoutNewline(a) && WithoutNewline(b)
    ensures WithoutNewline(a + b)
  {
  }

  lemma NoteIsComment()
    ensures NOTE != "" && NOTE[0] == '#' && WithoutNewline(NOTE)
  {
    var a, b, c := "# Generated by boot2deb; ", "read once by the data-volume ", "first-boot hook.";
    assert WithoutNewline(a) && WithoutNewline(b) && WithoutNewline(c) && a[0] == '#';
    WithoutNewlineConcat(a, b);
    WithoutNewlineConcat(a + b, c);
  }

  lemma ColumnsIsComment()
    ensures COLUMNS != "" && COLUMNS[0] == '#' && WithoutNewline(COLUMNS)
  {
    var a, b := "# <match>\t<label>\t", "<fstype>\t<mount>\t<create>";
    assert WithoutNewline(a) && WithoutNewline(b) && a[0] == '#';
    WithoutNewlineConcat(a, b);
  }

  lemma HeaderReadsNothing()
    ensures RowsOf(HEADER) == [] && forall line :: line in HEADER ==> '\n' !in line
  {
    NoteIsComment();
    ColumnsIsComment();
    CommentReadsNothing(NOTE);
    CommentReadsNothing(COLUMNS);
    RowsOfTwo(NOTE, COLUMNS);
  }

  lemma RowsOfTwo(a: string, b: string)
    ensures RowsOf([a, b]) == RowOf(a) + RowOf(b)
  {
    assert [a, b][1..] == [b] && [b][1..] == [];
    assert RowsOf([b]) == RowOf(b) + RowsOf([]);
  }

  lemma {:induction false} RowsOfConcat(a: seq<string>, b: seq<string>)
    ensures RowsOf(a + b) == RowsOf(a) + RowsOf(b)
  {
    if a == [] {
      assert a + b == b;
    } else {
      FrontOfConcat(a, b);
      RowsOfConcat(a[1..], b);
      Associative(RowOf(a[0]), RowsOf(a[1..]), RowsOf(b));
    }
  }

  lemma {:induction false} DataLinesRead(volumes: seq<DataVolume>)
    requires forall i :: 0 <= i < |volumes| ==> Valid(volumes[i]) && Clean(volumes[i])
    ensures RowsOf(DataLines(volumes)) == Rows(volumes)
    ensures forall line :: line in DataLines(volumes) ==> '\n' !in line
  {
    if volumes != [] {
      DataLineReads(volumes[0]);
      DataLinesRead(volumes[1..]);
      assert DataLines(volumes) == [DataLine(volumes[0])] + DataLines(volumes[1..]);
      assert Rows(volumes) == [Row(volumes[0])] + Rows(volumes[1..]);
    }
  }

  /** Every row the hook reads is made of words without tabs and newlines. */
  lemma {:induction false} ReadWords(lines: seq<string>, row: seq<string>, field: string)
    requires row in RowsOf(lines) && field in row && forall line :: line in lines ==> '\n' !in line
    ensures '\t' !in field && '\n' !in field
  {
    if row in RowOf(lines[0]) {
      WordsAreFree(lines[0], field);
    } else {
      ReadWords(lines[1..], row, field);
    }
  }

  lemma WordsAreFree(line: string, word: string)
    requires '\n' !in line && word in Words(line)
    ensures '\t' !in word && '\n' !in word
  {
    JoinSplit(line, '\t');
    NonEmptyFrom(Split(line, '\t'), word);
    PieceChars(Split(line, '\t'), "\t", word, '\n');
  }

  lemma {:induction false} NonEmptyFrom(pieces: seq<string>, p: string)
    requires p in NonEmpty(pieces)
    ensures p in pieces
  {
    if p !in NonEmpty(pieces[1..]) {
    } else {
      NonEmptyFrom(pieces[1..], p);
    }
  }

  lemma {:induction false} PieceChars(pieces: seq<string>, sep: string, p: string, c: char)
    requires p in pieces && c !in Join(pieces, sep)
    ensures c !in p
  {
    if |pieces| > 1 {
      var (a, rest) := (pieces[0] + sep, Join(pieces[1..], sep));
      assert Join(pieces, sep) == a + rest;
      if p == pieces[0] {
        assert forall i :: 0 <= i < |p| ==> (a + rest)[i] == p[i];
      } else {
        assert forall i :: 0 <= i < |rest| ==> (a + rest)[|a| + i] == rest[i];
        PieceChars(pieces[1..], sep, p, c);
      }
    }
  }

  lemma CleanReadsBack(volumes: seq<DataVolume>)
    requires forall i :: 0 <= i < |volumes| ==> Valid(volumes[i]) && Clean(volumes[i])
    ensures ReadConfig(Rendered(volumes)) == Rows(volumes)
  {
    var data := DataLines(volumes);
    HeaderReadsNothing();
    DataLinesRead(volumes);
    SplitEnded(HEADER + data);
    RowsOfConcat(HEADER + data, [""]);
    RowsOfConcat(HEADER, data);
    BlankRow();
    NothingAround(Rows(volumes));
  }

  lemma NothingAround(rows: seq<seq<string>>)
    ensures [] + rows == rows && rows + [] == rows
  {
  }

  lemma BlankRow()
    ensures RowsOf([""]) == []
  {
    SplitWhole("", '\t');
    assert [""][1..] == [];
    assert NonEmpty([""]) == [];
  }

  /** For a list that passes validation, the hook reads every volume back, in order and
      field for field, exactly when no mount or device node holds a tab or a newline. */
  lemma ReadsBackExactlyWhenClean(volumes: seq<DataVolume>)
    requires ValidateAll(volumes).None?
    ensures ReadConfig(Rendered(volumes)) == Rows(volumes)
        <==> forall i :: 0 <= i < |volumes| ==> Clean(volumes[i])
  {
    ValidateAllMeans(volumes);
    if forall i :: 0 <= i < |volumes| ==> Clean(volumes[i]) {
      CleanReadsBack(volumes);
    }
    if ReadConfig(Rendered(volumes)) == Rows(volumes) {
      forall i | 0 <= i < |volumes| ensures Clean(volumes[i]) {
        assert Rows(volumes)[i] == Row(volumes[i]);
        ReadRowIsClean(Rendered(volumes), volumes[i]);
      }
    }
  }

  lemma ReadRowIsClean(text: string, v: DataVolume)
    requires Row(v) in ReadConfig(text)
    ensures Clean(v)
  {
    var lines, row := Split(text, '\n'), Row(v);
    JoinSplit(text, '\n');
    assert row[3] == v.mount && row[0] == MatchText(v.match_);
    ReadWords(lines, row, row[3]);
    ReadWords(lines, row, row[0]);
  }

  /** Validation lets a tab through: a mount with one passes and reads back as two words. */
  lemma TabPassesValidation()
    ensures
      var v := DataVolume(Kind(Nvme), "data", Ext4, "/a\tb", IfBlank);
      ValidateAll([v]).None? && ReadConfig(Rendered([v])) != Rows([v])
  {
    var v := DataVolume(Kind(Nvme), "data", Ext4, "/a\tb", IfBlank);
    assert Valid(v);
    ValidateAllMeans([v]);
    assert v.mount[2] == '\t' && !Clean([v][0]);
    ReadsBackExactlyWhenClean([v]);
  }
}
