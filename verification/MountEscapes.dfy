/** The escapes of a mount table: a reader of `/etc/fstab` takes the octal codes of a space,
    a tab, a newline and a backslash in a field for the characters, so the lines of
    crates/core/src/datavolume.rs read back only where a mount holds none of them. */
module MountEscapes {
  import opened DataVolumes
  import opened Lists
  import opened MountTable
  import opened Text
  import opened Wrappers

  // ----- Decoding -----

  /** The character that the text starts with the code of, if any. */
  function CodeAt(s: string): Option<char> {
    if |s| < 4 || s[0] != '\\' then None
    else if s[1..4] == "040" then Some(' ')
    else if s[1..4] == "011" then Some('\t')
    else if s[1..4] == "012" then Some('\n')
    else if s[1..4] == "134" then Some('\\')
    else None
  }

  function Decoded(s: string): string {
    if s == "" then ""
    else if CodeAt(s).Some? then [CodeAt(s).value] + Decoded(s[4..])
    else [s[0]] + Decoded(s[1..])
  }

  /** No code stands anywhere in the text. */
  predicate NoCode(s: string) {
    forall i :: 0 <= i < |s| ==> CodeAt(s[i..]).None?
  }

  lemma NoCodeStep(s: string)
    requires s != ""
    ensures NoCode(s) <==> CodeAt(s).None? && NoCode(s[1..])
  {
    assert s[0..] == s;
    forall i | 0 < i < |s| ensures s[i..] == s[1..][i - 1..] {
    }
    if NoCode(s) {
      forall i | 0 <= i < |s[1..]| ensures CodeAt(s[1..][i..]).None? {
        assert s[1..][i..] == s[i + 1..];
      }
    }
  }

  /** Decoding makes a text shorter unless it holds no code, and then it stays as it is. */
  lemma {:induction false} DecodedShortens(s: string)
    ensures |Decoded(s)| <= |s|
    ensures |Decoded(s)| == |s| <==> NoCode(s)
    ensures NoCode(s) ==> Decoded(s) == s
    decreases |s|
  {
    if s != "" {
      NoCodeStep(s);
      if CodeAt(s).Some? {
        DecodedShortens(s[4..]);
      } else {
        DecodedShortens(s[1..]);
        assert s == [s[0]] + s[1..];
      }
    }
  }

  lemma NoBackslashNoCode(s: string)
    requires '\\' !in s
    ensures NoCode(s)
  {
    forall i | 0 <= i < |s| ensures CodeAt(s[i..]).None? {
      assert s[i..][0] == s[i] && s[i] in s;
    }
  }

  function DecodedRow(row: seq<string>): seq<string> {
    seq(|row|, i requires 0 <= i < |row| => Decoded(row[i]))
  }

  /** The table as its reader understands it. */
  function DecodedTable(text: string): seq<seq<string>> {
    DecodedRows(ReadTable(text))
  }

  function DecodedRows(rows: seq<seq<string>>): seq<seq<string>> {
    seq(|rows|, i requires 0 <= i < |rows| => DecodedRow(rows[i]))
  }

  // ----- What a table can hold at most -----

  predicate IsBlankChar(c: char) {
    c == ' ' || c == '\t' || c == '\n'
  }

  function SolidOne(c: char): nat {
    if IsBlankChar(c) then 0 else 1
  }

  /** How many characters are not blank. */
  function Solid(s: string): nat {
    if s == "" then 0 else Solid(s[..|s| - 1]) + SolidOne(s[|s| - 1])
  }

  function Length(s: string): nat {
    |s|
  }

  function RowLength(row: seq<string>): nat {
    Total(Length, row)
  }

  lemma SolidNext(s: string, c: char)
    ensures Solid(s + [c]) == Solid(s) + SolidOne(c)
  {
    assert (s + [c])[..|s|] == s;
  }

  lemma {:induction false} SolidConcat(a: string, b: string)
    ensures Solid(a + b) == Solid(a) + Solid(b)
  {
    if b == "" {
      assert a + b == a;
    } else {
      var front, last := b[..|b| - 1], b[|b| - 1];
      assert b == front + [last];
      SolidConcat(a, front);
      SolidNext(front, last);
      SolidNext(a + front, last);
      Associative(a, front, [last]);
    }
  }

  /** A text has no more solid characters than characters, and as many just when unbroken. */
  lemma {:induction false} SolidIsLength(s: string)
    ensures Solid(s) <= |s|
    ensures Solid(s) == |s| <==> Unbroken(s)
  {
    if s != "" {
      SolidIsLength(s[..|s| - 1]);
      InFrontOrLast(s);
    }
  }

  /** Splitting at a character loses no solid one but itself. */
  lemma {:induction false} SplitSolid(s: string, sep: char)
    ensures Total(Solid, Split(s, sep)) <= Solid(s)
    decreases |s|
  {
    var i := Find(s, sep);
    if i == |s| {
      TotalOne(Solid, s);
    } else {
      SplitSolid(s[i + 1..], sep);
      TotalConcat(Solid, [s[..i]], Split(s[i + 1..], sep));
      TotalOne(Solid, s[..i]);
      Around(s, i);
      SolidConcat(s[..i] + [s[i]], s[i + 1..]);
      SolidConcat(s[..i], [s[i]]);
    }
  }

  lemma {:induction false} NonEmptyTotal(pieces: seq<string>)
    ensures Total(Solid, NonEmpty(pieces)) == Total(Solid, pieces)
  {
    if pieces != [] {
      assert pieces == [pieces[0]] + pieces[1..];
      NonEmptyTotal(pieces[1..]);
      TotalConcat(Solid, [pieces[0]], pieces[1..]);
      TotalOne(Solid, pieces[0]);
      TotalConcat(Solid, [pieces[0]], NonEmpty(pieces[1..]));
      assert [] + NonEmpty(pieces[1..]) == NonEmpty(pieces[1..]);
    }
  }

  lemma FieldsSolid(line: string)
    ensures Total(Solid, TableFields(line)) <= Solid(line)
  {
    var pieces := Split(line, '\t');
    SplitSolid(line, '\t');
    forall p | p in pieces ensures Total(Solid, AtSpaces(p)) <= Solid(p) {
      SplitSolid(p, ' ');
    }
    TotalOfFlatMap(AtSpaces, Solid, Solid, pieces);
    NonEmptyTotal(FlatMap(AtSpaces, pieces));
  }

  /** The fields of a line, each made of solid characters, are no longer than what is solid
      in the line. */
  lemma EntryLength(line: string)
    requires '\n' !in line
    ensures Total(RowLength, TableEntry(line)) <= Solid(line)
  {
    var fields := TableFields(line);
    FieldsSolid(line);
    forall f | f in fields ensures Length(f) <= Solid(f) {
      LineFieldsUnbroken(line, f);
      SolidIsLength(f);
    }
    TotalAtMost(Length, Solid, fields);
    TotalOne(RowLength, fields);
  }

  lemma TableLength(text: string)
    ensures Total(RowLength, ReadTable(text)) <= Solid(text)
  {
    var lines := Split(text, '\n');
    JoinSplit(text, '\n');
    forall line | line in lines ensures Total(RowLength, TableEntry(line)) <= Solid(line) {
      EntryLength(line);
    }
    TotalOfFlatMap(TableEntry, RowLength, Solid, lines);
    SplitSolid(text, '\n');
  }

  lemma {:induction false} DecodedRowLength(row: seq<string>)
    ensures RowLength(DecodedRow(row)) <= RowLength(row)
  {
    if row != [] {
      DecodedRowLength(row[..|row| - 1]);
      DecodedShortens(row[|row| - 1]);
      assert DecodedRow(row)[..|row| - 1] == DecodedRow(row[..|row| - 1]);
    }
  }

  lemma {:induction false} DecodedRowsLength(rows: seq<seq<string>>)
    ensures Total(RowLength, DecodedRows(rows)) <= Total(RowLength, rows)
  {
    if rows != [] {
      DecodedRowsLength(rows[..|rows| - 1]);
      DecodedRowLength(rows[|rows| - 1]);
      assert DecodedRows(rows)[..|rows| - 1] == DecodedRows(rows[..|rows| - 1]);
    }
  }

  // ----- What the volumes' lines hold -----

  /** How long the fields of a volume are meant to be, and how much of its line is solid. */
  function MeantLength(v: DataVolume): nat {
    RowLength(FstabRow(v))
  }

  function SolidLength(v: DataVolume): nat {
    Solid(FstabLine(v))
  }

  lemma SixLengths(a: string, b: string, c: string, d: string, e: string, f: string)
    ensures RowLength([a, b, c, d, e, f]) == |a| + |b| + |c| + |d| + |e| + |f|
  {
    var (x, y) := ([a, b, c], [d, e, f]);
    ThreeLengths(a, b, c);
    ThreeLengths(d, e, f);
    TotalConcat(Length, x, y);
    assert x + y == [a, b, c, d, e, f];
  }

  lemma ThreeLengths(a: string, b: string, c: string)
    ensures RowLength([a, b, c]) == |a| + |b| + |c|
  {
    TotalOne(Length, a);
    TotalConcat(Length, [a], [b]);
    TotalConcat(Length, [a] + [b], [c]);
    TotalOne(Length, b);
    TotalOne(Length, c);
    assert [a] + [b] + [c] == [a, b, c];
  }

  lemma JoinedSolid(parts: seq<string>)
    requires |parts| > 1
    ensures Solid(Join(parts, "\t")) == Solid(parts[0]) + Solid(Join(parts[1..], "\t"))
  {
    SolidConcat(parts[0] + "\t", Join(parts[1..], "\t"));
    SolidNext(parts[0], '\t');
  }

  lemma LineSolid(a: string, b: string, c: string, d: string, e: string)
    ensures Solid(Join([a, b, c, d, e], "\t")) == Solid(a) + Solid(b) + Solid(c) + Solid(d) + Solid(e)
  {
    var (all, afterA, afterB, afterC) := ([a, b, c, d, e], [b, c, d, e], [c, d, e], [d, e]);
    assert all[1..] == afterA && afterA[1..] == afterB && afterB[1..] == afterC && afterC[1..] == [e];
    JoinedSolid(all);
    JoinedSolid(afterA);
    JoinedSolid(afterB);
    JoinedSolid(afterC);
  }

  lemma LastSolid()
    ensures Solid("0 2") == 2
  {
    SolidConcat("0 ", "2");
    SolidConcat("0", " ");
    assert "0 2" == "0 " + "2" && "0 " == "0" + " ";
    assert "0"[..0] == "" && " "[..0] == "" && "2"[..0] == "";
  }

  /** A line falls short of its fields by the blanks of the mount. */
  lemma LineFallsShort(v: DataVolume)
    requires Valid(v)
    ensures SolidLength(v) <= MeantLength(v)
    ensures SolidLength(v) == MeantLength(v) <==> Unbroken(v.mount)
  {
    var (a, b, c, d) := ("LABEL=" + v.fsLabel, v.mount, FsName(v.fstype), OPTIONS);
    LabelIsUnbroken(v.fsLabel);
    TypeIsUnbroken(v.fstype);
    OptionsAreUnbroken();
    SolidIsLength(a);
    SolidIsLength(b);
    SolidIsLength(c);
    SolidIsLength(d);
    LineSolid(a, b, c, d, "0 2");
    LastSolid();
    SixLengths(a, b, c, d, "0", "2");
  }

  lemma {:induction false} EndedSolid(lines: seq<string>)
    ensures Solid(Ended(lines)) == Total(Solid, lines)
  {
    if lines != [] {
      EndedSolid(lines[1..]);
      SolidConcat(lines[0] + "\n", Ended(lines[1..]));
      SolidConcat(lines[0], "\n");
      assert "\n"[..0] == "";
      TotalConcat(Solid, [lines[0]], lines[1..]);
      TotalOne(Solid, lines[0]);
      assert lines == [lines[0]] + lines[1..];
    }
  }

  lemma {:induction false} TableTotals(volumes: seq<DataVolume>)
    ensures Total(RowLength, TableRows(volumes)) == Total(MeantLength, volumes)
    ensures Total(Solid, FstabLines(volumes)) == Total(SolidLength, volumes)
  {
    if volumes != [] {
      var front := volumes[..|volumes| - 1];
      TableTotals(front);
      assert TableRows(volumes)[..|volumes| - 1] == TableRows(front);
      assert FstabLines(volumes)[..|volumes| - 1] == FstabLines(front);
    }
  }

  // ----- Exactly when the table reads back -----

  lemma DecodedTableLength(volumes: seq<DataVolume>)
    ensures Total(RowLength, DecodedTable(FstabText(volumes))) <= Total(SolidLength, volumes)
  {
    var text := FstabText(volumes);
    TableLength(text);
    DecodedRowsLength(ReadTable(text));
    EndedSolid(FstabLines(volumes));
    TableTotals(volumes);
  }

  /** A table that reads back has no blank in any mount: every blank would be missing from
      what is read. */
  lemma ReadBackIsUnbroken(volumes: seq<DataVolume>)
    requires forall i :: 0 <= i < |volumes| ==> Valid(volumes[i])
    requires DecodedTable(FstabText(volumes)) == TableRows(volumes)
    ensures forall i :: 0 <= i < |volumes| ==> Unbroken(volumes[i].mount)
  {
    DecodedTableLength(volumes);
    TableTotals(volumes);
    forall v | v in volumes ensures SolidLength(v) <= MeantLength(v) {
      LineFallsShort(v);
    }
    SameTotal(SolidLength, MeantLength, volumes);
    forall i | 0 <= i < |volumes| ensures Unbroken(volumes[i].mount) {
      assert volumes[i] in volumes;
      LineFallsShort(volumes[i]);
    }
  }

  lemma PlainLabel(name: string)
    requires forall i :: 0 <= i < |name| ==> LabelChar(name[i])
    ensures '\\' !in "LABEL=" + name
  {
    NotInConcat('\\', "LABEL=", name);
  }

  lemma PlainOptions()
    ensures '\\' !in OPTIONS
  {
    var a, b := "defaults,nofail,", "x-systemd.device-timeout=10s";
    assert '\\' !in a && '\\' !in b;
    NotInConcat('\\', a, b);
  }

  lemma Undecoded(s: string)
    requires '\\' !in s
    ensures Decoded(s) == s
  {
    NoBackslashNoCode(s);
    DecodedShortens(s);
  }

  /** Of a volume's fields only the mount can hold a code. */
  lemma RowReadsBack(v: DataVolume)
    requires Valid(v)
    ensures DecodedRow(FstabRow(v)) == FstabRow(v) <==> NoCode(v.mount)
  {
    PlainLabel(v.fsLabel);
    PlainOptions();
    Undecoded("LABEL=" + v.fsLabel);
    Undecoded(FsName(v.fstype));
    Undecoded(OPTIONS);
    Undecoded("0");
    Undecoded("2");
    DecodedShortens(v.mount);
    OnlySecond(FstabRow(v));
  }

  lemma OnlySecond(row: seq<string>)
    requires |row| == 6
    requires forall i :: 0 <= i < 6 && i != 1 ==> Decoded(row[i]) == row[i]
    ensures DecodedRow(row) == row <==> Decoded(row[1]) == row[1]
  {
    if DecodedRow(row) == row {
      assert DecodedRow(row)[1] == row[1];
    }
  }

  lemma SampleIsValid(v: DataVolume)
    requires v == DataVolume(Kind(Nvme), "data", Ext4, "/a\\040b", IfBlank)
    ensures ValidateAll([v]).None?
  {
    assert Valid(v);
    ValidateAllMeans([v]);
  }

  lemma SampleCode(mount: string)
    requires mount == "/a\\040b"
    ensures Unbroken(mount) && !NoCode(mount)
  {
    var tail := mount[2..];
    assert tail[0] == '\\' && tail[1..4] == "040";
  }

  /** One volume whose mount holds a code, and nothing that breaks its line. */
  lemma BrokenByCode(volumes: seq<DataVolume>, mount: string)
    requires ValidateAll(volumes).None? && |volumes| == 1 && volumes[0].mount == mount
    requires Unbroken(mount) && !NoCode(mount)
    ensures ReadTable(FstabText(volumes)) == TableRows(volumes) && DecodedTable(FstabText(volumes)) != TableRows(volumes)
  {
    ValidateAllMeans(volumes);
    UnbrokenReadsBack(volumes);
    FstabReadsBackExactlyWhenPlain(volumes);
  }

  /** A mount that spells the code of a space passes, is one field, and reads as another
      mount. */
  lemma CodeReadsAsAnother(v: DataVolume)
    requires v == DataVolume(Kind(Nvme), "data", Ext4, "/a\\040b", IfBlank)
    ensures ValidateAll([v]).None?
    ensures ReadTable(FstabText([v])) == TableRows([v]) && DecodedTable(FstabText([v])) != TableRows([v])
  {
    SampleIsValid(v);
    SampleCode(v.mount);
    BrokenByCode([v], v.mount);
  }

  /** For a list that passes validation, the mount table, its escapes decoded, gives every
      volume back, in order and field for field, exactly when no mount holds a space, a tab,
      a newline or the code of one of these or of a backslash. */
  lemma FstabReadsBackExactlyWhenPlain(volumes: seq<DataVolume>)
    requires ValidateAll(volumes).None?
    ensures DecodedTable(FstabText(volumes)) == TableRows(volumes)
        <==> forall i :: 0 <= i < |volumes| ==> Unbroken(volumes[i].mount) && NoCode(volumes[i].mount)
  {
    ValidateAllMeans(volumes);
    forall i | 0 <= i < |volumes| ensures DecodedRow(FstabRow(volumes[i])) == FstabRow(volumes[i]) <==> NoCode(volumes[i].mount) {
      RowReadsBack(volumes[i]);
    }
    if DecodedTable(FstabText(volumes)) == TableRows(volumes) {
      ReadBackIsUnbroken(volumes);
    }
    if forall i :: 0 <= i < |volumes| ==> Unbroken(volumes[i].mount) {
      UnbrokenReadsBack(volumes);
      TableDecodes(volumes);
    }
  }

  lemma TableDecodes(volumes: seq<DataVolume>)
    ensures DecodedRows(TableRows(volumes)) == TableRows(volumes)
       <==> forall i :: 0 <= i < |volumes| ==> DecodedRow(FstabRow(volumes[i])) == FstabRow(volumes[i])
  {
    var rows := TableRows(volumes);
    if DecodedRows(rows) == rows {
      forall i | 0 <= i < |volumes| ensures DecodedRow(FstabRow(volumes[i])) == FstabRow(volumes[i]) {
        assert DecodedRows(rows)[i] == rows[i];
      }
    }
  }

  // ----- The codes -----

  predicate IsOctal(c: char) {
    '0' <= c <= '7'
  }

  function OctalValue(a: char, b: char, c: char): int {
    64 * (a as int - '0' as int) + 8 * (b as int - '0' as int) + (c as int - '0' as int)
  }

  /** A code is a backslash and the number of the character in three octal digits. */
  lemma CodesAreOctal(s: string, c: char)
    ensures CodeAt(s) == Some(c) <==>
      && (c == ' ' || c == '\t' || c == '\n' || c == '\\')
      && |s| >= 4 && s[0] == '\\' && IsOctal(s[1]) && IsOctal(s[2]) && IsOctal(s[3])
      && OctalValue(s[1], s[2], s[3]) == c as int
  {
    if |s| >= 4 {
      var code := s[1..4];
      assert code == [s[1], s[2], s[3]];
    }
  }
}
