/** Reading a dpkg status database, `parse_status` of crates/core/src/debdep.rs. */
module StatusFile {
  import opened ControlFiles
  import opened DependencyClosure
  import opened DependencyFields
  import opened FieldJoins
  import opened Lists
  import opened Text
  import opened Wrappers

  datatype Known = PackageField | VersionField | StatusField | DependsField | PreDependsField | ProvidesField

  /** The values of one stanza's known fields, "" for one that is not there. */
  type Values = map<Known, string>

  function Lower(s: string): string {
    seq(|s|, i requires 0 <= i < |s| => if 'A' <= s[i] <= 'Z' then (s[i] as int + 32) as char else s[i])
  }

  function KnownField(key: string): Option<Known> {
    match Lower(key)
    case "package" => Some(PackageField)
    case "version" => Some(VersionField)
    case "status" => Some(StatusField)
    case "depends" => Some(DependsField)
    case "pre-depends" => Some(PreDependsField)
    case "provides" => Some(ProvidesField)
    case _ => None
  }

  function KeyOf(field: Known): string {
    match field
    case PackageField => "package"
    case VersionField => "version"
    case StatusField => "status"
    case DependsField => "depends"
    case PreDependsField => "pre-depends"
    case ProvidesField => "provides"
  }

  /** Each field is known by its own name, in any case. */
  lemma KnownFieldMeans(key: string, field: Known)
    ensures KnownField(key) == Some(field) <==> Lower(key) == KeyOf(field)
  {
  }

  // ----- One stanza -----

  /** What is read so far, and the known field a continuation line would continue. */
  datatype Stanza = Stanza(values: Values, field: Option<Known>)

  const BLANK := Stanza(map[], None)

  function ValueOf(values: Values, field: Known): string {
    if field in values then values[field] else ""
  }

  function MoreOf(s: Stanza, text: string): Stanza {
    if s.field.None? then s
    else s.(values := s.values[s.field.value := ValueOf(s.values, s.field.value) + (" " + text)])
  }

  function HeaderOf(s: Stanza, header: Option<(string, string)>): Stanza {
    if header.None? then s.(field := None)
    else
      var known := KnownField(header.value.0);
      if known.None? then s.(field := None)
      else Stanza(s.values[known.value := header.value.1], known)
  }

  function TakeLine(s: Stanza, line: string): Stanza {
    if StartsWith(line, " ") then MoreOf(s, Trim(line[1..])) else HeaderOf(s, Header(line))
  }

  function ReadStanza(text: string): Values {
    Fold(TakeLine, BLANK, Lines(text)).values
  }

  const WORD := "installed"

  predicate IsInstalled(v: Values) {
    ValueOf(v, PackageField) != "" && EndsWith(TrimEnd(ValueOf(v, StatusField)), WORD)
  }

  /** Both kinds of hard dependency as one field. */
  function JoinedDepends(depends: string, preDepends: string): string {
    if preDepends == "" then depends else if depends == "" then preDepends else depends + ", " + preDepends
  }

  function PackageOf(v: Values): Package {
    Package(
      ValueOf(v, PackageField), ValueOf(v, VersionField),
      JoinedDepends(ValueOf(v, DependsField), ValueOf(v, PreDependsField)), ValueOf(v, ProvidesField))
  }

  function Selected(v: Values): seq<Package> {
    if IsInstalled(v) then [PackageOf(v)] else []
  }

  // ----- The database -----

  /** Index of the first empty line between two others, or the length. */
  function FindBlank(s: string): (i: nat)
    ensures i <= |s|
    ensures i < |s| ==> i + 2 <= |s|
  {
    if |s| < 2 then |s|
    else if s[0] == '\n' && s[1] == '\n' then 0
    else 1 + FindBlank(s[1..])
  }

  function SplitBlank(s: string): seq<string>
    decreases |s|
  {
    var i := FindBlank(s);
    if i == |s| then [s] else [s[..i]] + SplitBlank(s[i + 2..])
  }

  function StanzaPackages(text: string): seq<Package> {
    Selected(ReadStanza(text))
  }

  function ParsedStatus(text: string): seq<Package> {
    FlatMap(StanzaPackages, SplitBlank(text))
  }

  method ParseStatus(text: string) returns (out: seq<Package>)
    ensures out == ParsedStatus(text)
  {
    out := [];
    var stanzas := SplitBlank(text);
    for i := 0 to |stanzas|
      invariant out == FlatMap(StanzaPackages, stanzas[..i])
    {
      FlatMapStep(StanzaPackages, stanzas, i);
      var v := ParseStanza(stanzas[i]);
      if IsInstalled(v) {
        out := out + [PackageOf(v)];
      }
    }
    assert stanzas[..|stanzas|] == stanzas;
  }

  method ParseStanza(text: string) returns (values: Values)
    ensures values == ReadStanza(text)
  {
    var lines := Lines(text);
    values := map[];
    var field: Option<Known> := None;
    for i := 0 to |lines|
      invariant Stanza(values, field) == Fold(TakeLine, BLANK, lines[..i])
    {
      FoldStep(TakeLine, BLANK, lines, i);
      if StartsWith(lines[i], " ") {
        values := Continue(values, field, Trim(lines[i][1..]));
      } else {
        values, field := Begin(values, field, Header(lines[i]));
      }
    }
    assert lines[..|lines|] == lines;
  }

  method Continue(values0: Values, field: Option<Known>, text: string) returns (values: Values)
    ensures Stanza(values, field) == MoreOf(Stanza(values0, field), text)
  {
    values := values0;
    if field.Some? {
      values := values[field.value := ValueOf(values, field.value) + (" " + text)];
    }
  }

  method Begin(values0: Values, field0: Option<Known>, header: Option<(string, string)>) returns (values: Values, field: Option<Known>)
    ensures Stanza(values, field) == HeaderOf(Stanza(values0, field0), header)
  {
    values, field := values0, None;
    if header.Some? {
      field := KnownField(header.value.0);
      if field.Some? {
        values := values[field.value := header.value.1];
      }
    }
  }

  // ----- A database as dpkg writes it -----

  /** A stanza's values by known field; a field said twice keeps the later value. */
  function Intended(fields: seq<Field>): Values {
    if fields == [] then map[]
    else
      var f := fields[|fields| - 1];
      var before, known := Intended(fields[..|fields| - 1]), KnownField(f.key);
      if known.None? then before else before[known.value := Join(f.value, " ")]
  }

  /** No empty line within or at the end. */
  predicate Solid(s: string) {
    FindBlank(s) == |s| && (s != "" ==> s[|s| - 1] != '\n')
  }

  function StatusText(stanzas: seq<string>): string {
    if stanzas == [] then "" else stanzas[0] + ("\n\n" + StatusText(stanzas[1..]))
  }

  lemma {:induction false} BlankAfter(s: string, rest: string)
    requires Solid(s)
    ensures FindBlank(s + ("\n\n" + rest)) == |s|
  {
    var whole := s + ("\n\n" + rest);
    if s == "" {
      assert whole == "\n\n" + rest;
      assert whole[0] == '\n' && whole[1] == '\n';
    } else {
      FrontOfConcat(s, "\n\n" + rest);
      if |s| == 1 {
        assert s[1..] == "" && FindBlank("") == 0;
      } else {
        assert whole[1] == s[1];
      }
      BlankAfter(s[1..], rest);
    }
  }

  lemma BlankSplits(first: string, rest: string)
    requires Solid(first)
    ensures SplitBlank(first + ("\n\n" + rest)) == [first] + SplitBlank(rest)
  {
    BlankAfter(first, rest);
    var whole := first + ("\n\n" + rest);
    Prefix(first, "\n\n" + rest);
    assert whole[|first| + 2..] == rest;
  }

  lemma {:induction false} StatusSplits(stanzas: seq<string>)
    requires forall s :: s in stanzas ==> Solid(s)
    ensures SplitBlank(StatusText(stanzas)) == stanzas + [""]
  {
    if stanzas != [] {
      var first, rest := stanzas[0], StatusText(stanzas[1..]);
      assert first in stanzas;
      StatusSplits(stanzas[1..]);
      BlankSplits(first, rest);
      assert stanzas == [first] + stanzas[1..];
      Associative([first], stanzas[1..], [""]);
    }
  }

  predicate IsLine(line: string) {
    line != "" && '\n' !in line && WithoutReturn(line) == line
  }

  function StanzaText(lines: seq<string>): string {
    Join(lines, "\n")
  }

  lemma {:induction false} LineHasNoBlank(line: string)
    requires '\n' !in line
    ensures FindBlank(line) == |line|
  {
    if |line| >= 2 {
      assert line[0] in line;
      LineHasNoBlank(line[1..]);
    }
  }

  lemma {:induction false} BlankPast(line: string, rest: string)
    requires '\n' !in line && rest != "" && rest[0] != '\n' && FindBlank(rest) == |rest|
    ensures FindBlank(line + ("\n" + rest)) == |line| + 1 + |rest|
  {
    if line == "" {
      assert line + ("\n" + rest) == "\n" + rest && ("\n" + rest)[1..] == rest;
    } else {
      FrontOfConcat(line, "\n" + rest);
      assert line[0] in line;
      BlankPast(line[1..], rest);
    }
  }

  /** A text that is one line or more of a stanza. */
  predicate IsStanzaText(s: string) {
    s != "" && s[0] != '\n' && Solid(s)
  }

  lemma OneLineText(line: string)
    requires IsLine(line)
    ensures IsStanzaText(line) && Lines(line) == [line]
  {
    assert line[0] in line && line[|line| - 1] in line;
    LineHasNoBlank(line);
  }

  lemma LineEnds(line: string, rest: string)
    requires line != "" && rest != ""
    ensures var s := line + ("\n" + rest); |s| == |line| + 1 + |rest| && s[0] == line[0] && s[|s| - 1] == rest[|rest| - 1]
  {
  }

  lemma LineThenSolid(line: string, rest: string)
    requires IsLine(line) && IsStanzaText(rest)
    ensures IsStanzaText(line + ("\n" + rest))
  {
    assert line[0] in line;
    LineEnds(line, rest);
    BlankPast(line, rest);
  }

  lemma LineThenText(line: string, rest: string)
    requires IsLine(line) && IsStanzaText(rest)
    ensures IsStanzaText(line + "\n" + rest)
    ensures Lines(line + "\n" + rest) == [line] + Lines(rest)
  {
    assert IsStanzaText(line + "\n" + rest) by {
      LineThenSolid(line, rest);
      Associative(line, "\n", rest);
    }
    assert Lines(line + "\n" + rest) == [line] + Lines(rest) by {
      LinesAfter(line, rest);
    }
  }

  /** Lines joined make a solid text, and read back as the lines. */
  lemma {:induction false} JoinedLines(lines: seq<string>)
    requires lines != [] && forall line :: line in lines ==> IsLine(line)
    ensures IsStanzaText(StanzaText(lines)) && Lines(StanzaText(lines)) == lines
  {
    assert IsLine(lines[0]);
    assert lines == [lines[0]] + lines[1..];
    if |lines| == 1 {
      OneLineText(lines[0]);
    } else {
      JoinedLines(lines[1..]);
      LineThenText(lines[0], StanzaText(lines[1..]));
    }
  }

  function With(values: Values, field: Option<Known>, value: string): Values {
    if field.Some? then values[field.value := value] else values
  }

  lemma {:induction false} ContinuationsTaken(values: Values, field: Option<Known>, first: string, more: seq<string>)
    requires forall v :: v in more ==> IsTrimmed(v)
    ensures Fold(TakeLine, Stanza(With(values, field, first), field), Continuations(more))
         == Stanza(With(values, field, Join([first] + more, " ")), field)
  {
    if more == [] {
      assert [first] + more == [first];
    } else {
      var front, last := more[..|more| - 1], more[|more| - 1];
      assert more == front + [last];
      ContinuationsTaken(values, field, first, front);
      var before := Join([first] + front, " ");
      var start := Stanza(With(values, field, first), field);
      ContinuationsNext(front, last);
      FoldConcat(TakeLine, start, Continuations(front), [" " + last]);
      FoldOne(TakeLine, Stanza(With(values, field, before), field), " " + last);
      SpaceIsMore(Stanza(With(values, field, before), field), last);
      MoreOfWith(values, field, before, last);
      JoinOneMore(first, front, last, " ");
    }
  }

  lemma SpaceIsMore(s: Stanza, v: string)
    requires IsTrimmed(v)
    ensures TakeLine(s, " " + v) == MoreOf(s, v)
  {
    assert (" " + v)[1..] == v && StartsWith(" " + v, " ");
    TrimTrimmed(v);
  }

  lemma MoreOfWith(values: Values, field: Option<Known>, before: string, v: string)
    ensures MoreOf(Stanza(With(values, field, before), field), v) == Stanza(With(values, field, before + " " + v), field)
  {
    Associative(before, " ", v);
    if field.Some? {
      assert values[field.value := before][field.value := before + (" " + v)] == values[field.value := before + (" " + v)];
    }
  }

  lemma HeaderTaken(s: Stanza, key: string, v: string)
    requires IsTrimmed(key) && ':' !in key && IsTrimmed(v)
    ensures TakeLine(s, key + (": " + v)) == HeaderOf(s, Some((key, v)))
  {
    var line := key + (": " + v);
    FirstLineParts(key, v);
    HeaderReads(key, v);
    SpaceContinues(line);
    NoSpaceIsHeader(s, line);
  }

  lemma SpaceContinues(line: string)
    ensures StartsWith(line, " ") ==> Continues(line)
  {
    if StartsWith(line, " ") {
      assert line[..1][0] == line[0];
    }
  }

  lemma NoSpaceIsHeader(s: Stanza, line: string)
    requires !StartsWith(line, " ")
    ensures TakeLine(s, line) == HeaderOf(s, Header(line))
  {
  }

  lemma FieldTaken(s: Stanza, f: Field)
    requires WellFormedField(f)
    ensures Fold(TakeLine, s, FieldLines(f)) == HeaderOf(s, Some((f.key, Join(f.value, " "))))
  {
    var key, first, more := f.key, f.value[0], f.value[1..];
    assert first in f.value;
    HeaderTaken(s, key, first);
    var line := key + (": " + first);
    FoldOne(TakeLine, s, line);
    FoldConcat(TakeLine, s, [line], Continuations(more));
    ContinuationsTaken(s.values, KnownField(key), first, more);
    assert [first] + more == f.value;
  }

  lemma {:induction false} FieldsTaken(fields: seq<Field>)
    requires forall f :: f in fields ==> WellFormedField(f)
    ensures Fold(TakeLine, BLANK, ControlLines(fields)).values == Intended(fields)
  {
    if fields != [] {
      var front, last := fields[..|fields| - 1], fields[|fields| - 1];
      assert last in fields;
      FieldsTaken(front);
      FoldConcat(TakeLine, BLANK, ControlLines(front), FieldLines(last));
      FieldTaken(Fold(TakeLine, BLANK, ControlLines(front)), last);
    }
  }

  lemma {:induction false} ControlLinesAreNotEmpty(fields: seq<Field>)
    requires forall f :: f in fields ==> WellFormedField(f)
    ensures forall line :: line in ControlLines(fields) ==> line != ""
    ensures fields != [] ==> ControlLines(fields) != []
  {
    if fields != [] {
      assert WellFormedField(fields[|fields| - 1]);
      ControlLinesAreNotEmpty(fields[..|fields| - 1]);
    }
  }

  /** The text of one stanza reads as its values. */
  lemma StanzaReads(fields: seq<Field>)
    requires fields != [] && forall f :: f in fields ==> WellFormedField(f)
    ensures Solid(StanzaText(ControlLines(fields)))
    ensures ReadStanza(StanzaText(ControlLines(fields))) == Intended(fields)
  {
    ControlLinesAreLines(fields);
    ControlLinesAreNotEmpty(fields);
    JoinedLines(ControlLines(fields));
    FieldsTaken(fields);
  }

  ghost predicate WellFormedStanza(fields: seq<Field>) {
    fields != [] && forall f :: f in fields ==> WellFormedField(f)
  }

  function FieldsPackages(fields: seq<Field>): seq<Package> {
    Selected(Intended(fields))
  }

  function StanzaTexts(stanzas: seq<seq<Field>>): seq<string>
    requires forall s :: s in stanzas ==> WellFormedStanza(s)
  {
    seq(|stanzas|, i requires 0 <= i < |stanzas| => assert WellFormedStanza(stanzas[i]); StanzaText(ControlLines(stanzas[i])))
  }

  lemma StanzasRead(stanzas: seq<seq<Field>>)
    requires forall s :: s in stanzas ==> WellFormedStanza(s)
    ensures FlatMap(StanzaPackages, StanzaTexts(stanzas)) == FlatMap(FieldsPackages, stanzas)
  {
    var texts := StanzaTexts(stanzas);
    forall i | 0 <= i < |stanzas| ensures StanzaPackages(texts[i]) == FieldsPackages(stanzas[i]) {
      assert WellFormedStanza(stanzas[i]);
      StanzaReads(stanzas[i]);
    }
    FlatMapMatch(StanzaPackages, texts, FieldsPackages, stanzas);
  }

  /** A written database reads back as the packages of the stanzas that are selected, in
      order: long values joined, unknown fields passed over. */
  lemma StatusReads(stanzas: seq<seq<Field>>)
    requires forall s :: s in stanzas ==> WellFormedStanza(s)
    ensures ParsedStatus(StatusText(StanzaTexts(stanzas))) == FlatMap(FieldsPackages, stanzas)
  {
    var texts := StanzaTexts(stanzas);
    forall t | t in texts ensures Solid(t) {
      var i :| 0 <= i < |texts| && texts[i] == t;
      assert stanzas[i] in stanzas;
      StanzaReads(stanzas[i]);
    }
    StatusSplits(texts);
    FlatMapConcat(StanzaPackages, texts, [""]);
    FlatMapOne(StanzaPackages, "");
    StanzasRead(stanzas);
    assert ReadStanza("") == map[];
  }

  function Line(key: string, value: string): Field {
    Field(key, [value])
  }

  lemma {:induction false} IntendedNext(fields: seq<Field>, key: string, value: string, known: Known)
    requires Lower(key) == KeyOf(known)
    ensures Intended(fields + [Line(key, value)]) == Intended(fields)[known := value]
  {
    KnownFieldMeans(key, known);
    assert (fields + [Line(key, value)])[..|fields|] == fields;
  }

  lemma KeyNames()
    ensures Lower("Package") == KeyOf(PackageField) && Lower("Version") == KeyOf(VersionField)
    ensures Lower("Status") == KeyOf(StatusField) && Lower("Depends") == KeyOf(DependsField)
    ensures Lower("Provides") == KeyOf(ProvidesField)
  {
  }

  function InstalledFields(name: string, status: string, version: string, depends: string, provided: string): seq<Field> {
    [Line("Package", name)] + [Line("Status", status)] + [Line("Version", version)] + [Line("Depends", depends)] + [Line("Provides", provided)]
  }

  lemma InstalledValues(name: string, status: string, version: string, depends: string, provided: string)
    ensures Intended(InstalledFields(name, status, version, depends, provided))
         == map[PackageField := name, StatusField := status, VersionField := version, DependsField := depends, ProvidesField := provided]
  {
    KeyNames();
    var none: seq<Field> := [];
    var one := [Line("Package", name)];
    var two := one + [Line("Status", status)];
    var three := two + [Line("Version", version)];
    assert none + [Line("Package", name)] == one;
    IntendedNext(none, "Package", name, PackageField);
    IntendedNext(one, "Status", status, StatusField);
    IntendedNext(two, "Version", version, VersionField);
    IntendedNext(three, "Depends", depends, DependsField);
    IntendedNext(three + [Line("Depends", depends)], "Provides", provided, ProvidesField);
  }

  /** An installed package's stanza gives its name, version, dependencies and what it
      provides, each from the field of that name. */
  lemma InstalledStanza(name: string, status: string, version: string, depends: string, provided: string)
    requires name != "" && EndsWith(TrimEnd(status), WORD)
    ensures FieldsPackages(InstalledFields(name, status, version, depends, provided)) == [Package(name, version, depends, provided)]
  {
    InstalledValues(name, status, version, depends, provided);
  }

  // ----- Which states count as installed -----

  datatype DpkgState =
    | NotInstalled | ConfigFiles | HalfInstalled | Unpacked | HalfConfigured | TriggersAwaited | TriggersPending | Installed

  function StateName(s: DpkgState): string {
    match s
    case NotInstalled => "not-installed"
    case ConfigFiles => "config-files"
    case HalfInstalled => "half-installed"
    case Unpacked => "unpacked"
    case HalfConfigured => "half-configured"
    case TriggersAwaited => "triggers-awaited"
    case TriggersPending => "triggers-pending"
    case Installed => "installed"
  }

  lemma EndsInTail(front: string, s: string, suffix: string)
    requires |suffix| <= |s|
    ensures EndsWith(front + s, suffix) <==> EndsWith(s, suffix)
  {
    assert (front + s)[|front + s| - |suffix|..] == s[|s| - |suffix|..];
  }

  lemma StateEndsInWord(state: DpkgState)
    requires state == Installed || state == HalfInstalled || state == NotInstalled
    ensures EndsWith(" " + StateName(state), WORD)
  {
    match state
    case NotInstalled => EndsInTail(" not-", "installed", WORD);
    case HalfInstalled => EndsInTail(" half-", "installed", WORD);
    case Installed => EndsInTail(" ", "installed", WORD);
  }

  lemma WordEnds(s: string)
    requires EndsWith(s, WORD)
    ensures |s| >= 3 && s[|s| - 1] == 'd' && s[|s| - 3] == 'l'
  {
    var tail := s[|s| - |WORD|..];
    assert tail[8] == s[|s| - 1] && tail[6] == s[|s| - 3];
    assert WORD[8] == 'd' && WORD[6] == 'l';
  }

  lemma StateEndsOtherwise(state: DpkgState)
    requires !(state == Installed || state == HalfInstalled || state == NotInstalled)
    ensures !EndsWith(" " + StateName(state), WORD)
  {
    var name := StateName(state);
    var s := " " + name;
    assert |name| >= 3 && s[|s| - 1] == name[|name| - 1] && s[|s| - 3] == name[|name| - 3];
    assert name[|name| - 1] != 'd' || name[|name| - 3] != 'l';
    if EndsWith(s, WORD) {
      WordEnds(s);
    }
  }

  lemma StateEnds(state: DpkgState)
    ensures |WORD| <= |" " + StateName(state)|
    ensures EndsWith(" " + StateName(state), WORD) <==> state == Installed || state == HalfInstalled || state == NotInstalled
  {
    if state == Installed || state == HalfInstalled || state == NotInstalled {
      StateEndsInWord(state);
    } else {
      StateEndsOtherwise(state);
    }
  }

  lemma StateTrims(front: string, state: DpkgState)
    ensures TrimEnd(front + (" " + StateName(state))) == front + (" " + StateName(state))
  {
    var s := front + (" " + StateName(state));
    var name := StateName(state);
    assert s[|s| - 1] == name[|name| - 1];
  }

  /** Of dpkg's states the test takes three: a half-installed or a removed package that is
      still listed counts as installed too. */
  lemma StatesTaken(want: string, state: DpkgState, v: Values)
    requires ValueOf(v, PackageField) != "" && ValueOf(v, StatusField) == want + (" " + StateName(state))
    ensures IsInstalled(v) <==> state == Installed || state == HalfInstalled || state == NotInstalled
  {
    StateTrims(want, state);
    StateEnds(state);
    EndsInTail(want, " " + StateName(state), WORD);
  }

  /** The joined field asks for what both fields ask for exactly when one of them is empty,
      or the first leaves no bracket open and exposes no comma of the second. */
  lemma JoinedDependsRead(depends: string, preDepends: string)
    ensures SplitTop(JoinedDepends(depends, preDepends), ',') == SplitTop(depends, ',') + SplitTop(preDepends, ',')
       <==> depends == "" || preDepends == "" || (Depth(depends) <= 0 && !Exposed(preDepends, ',', Depth(depends), 0))
  {
    NothingListed();
    if depends != "" && preDepends != "" {
      JoinedFieldsRead(depends, preDepends);
    }
  }

  lemma NothingListed()
    ensures SplitTop("", ',') == []
  {
    assert [""][1..] == [];
  }
}
