/** The control file of a package, `parse_control` of crates/core/src/debcheck.rs. */
module ControlFiles {
  import opened Lists
  import opened Text
  import opened Wrappers

  /** What is read so far, and the field a continuation line would continue. */
  datatype Reading = Reading(fields: map<string, string>, last: Option<string>)

  predicate Continues(line: string) {
    line != "" && (line[0] == ' ' || line[0] == '\t')
  }

  function Continued(r: Reading, text: string): Reading {
    if r.last.Some? && r.last.value in r.fields
    then Reading(r.fields[r.last.value := r.fields[r.last.value] + ("\n" + text)], r.last)
    else r
  }

  function Started(r: Reading, key: string, value: string): Reading {
    Reading(r.fields[key := value], Some(key))
  }

  /** The name and value around the first colon. */
  function Header(line: string): Option<(string, string)> {
    var cut := Cut(line, ':');
    if cut.None? then None else Some((Trim(cut.value.0), Trim(cut.value.1)))
  }

  function Headed(r: Reading, header: Option<(string, string)>): Reading {
    if header.None? then r else Started(r, header.value.0, header.value.1)
  }

  function ReadLine(r: Reading, line: string): Reading {
    if Continues(line) then Continued(r, Trim(line)) else Headed(r, Header(line))
  }

  function ReadFrom(r: Reading, lines: seq<string>): Reading {
    Fold(ReadLine, r, lines)
  }

  const NOTHING := Reading(map[], None)

  function ParsedFields(text: string): map<string, string> {
    ReadFrom(NOTHING, Lines(text)).fields
  }

  method ParseControl(text: string) returns (fields: map<string, string>)
    ensures fields == ParsedFields(text)
  {
    var lines := Lines(text);
    fields := map[];
    var last: Option<string> := None;
    for i := 0 to |lines|
      invariant Reading(fields, last) == Fold(ReadLine, NOTHING, lines[..i])
    {
      FoldStep(ReadLine, NOTHING, lines, i);
      var line := lines[i];
      if Continues(line) {
        fields := ContinueField(fields, last, Trim(line));
      } else {
        fields, last := TakeHeader(fields, last, Header(line));
      }
    }
    assert lines[..|lines|] == lines;
  }

  method ContinueField(fields: map<string, string>, last: Option<string>, text: string) returns (r: map<string, string>)
    ensures Reading(r, last) == Continued(Reading(fields, last), text)
  {
    r := fields;
    if last.Some? && last.value in fields {
      r := fields[last.value := fields[last.value] + ("\n" + text)];
    }
  }

  method TakeHeader(fields0: map<string, string>, last0: Option<string>, header: Option<(string, string)>)
    returns (fields: map<string, string>, last: Option<string>)
    ensures Reading(fields, last) == Headed(Reading(fields0, last0), header)
  {
    fields, last := fields0, last0;
    if header.Some? {
      var (key, value) := header.value;
      fields := fields[key := value];
      last := Some(key);
    }
  }

  // ----- Fields as deb822 writes them -----

  /** A field and the lines of its value. */
  datatype Field = Field(key: string, value: seq<string>)

  predicate WellFormedField(f: Field) {
    && IsTrimmed(f.key) && ':' !in f.key && '\n' !in f.key
    && f.value != [] && forall v :: v in f.value ==> IsTrimmed(v) && '\n' !in v
  }

  function Continuations(value: seq<string>): seq<string> {
    seq(|value|, i requires 0 <= i < |value| => " " + value[i])
  }

  function FieldLines(f: Field): seq<string>
    requires f.value != []
  {
    [f.key + (": " + f.value[0])] + Continuations(f.value[1..])
  }

  function ControlLines(fields: seq<Field>): seq<string>
    requires forall f :: f in fields ==> WellFormedField(f)
  {
    if fields == [] then []
    else
      assert WellFormedField(fields[|fields| - 1]);
      ControlLines(fields[..|fields| - 1]) + FieldLines(fields[|fields| - 1])
  }

  function ControlText(fields: seq<Field>): string
    requires forall f :: f in fields ==> WellFormedField(f)
  {
    Ended(ControlLines(fields))
  }

  /** The value lines by key; a key said twice keeps the later value. */
  function Meaning(fields: seq<Field>): map<string, string> {
    if fields == [] then map[]
    else var f := fields[|fields| - 1]; Meaning(fields[..|fields| - 1])[f.key := Join(f.value, "\n")]
  }

  lemma ContinuationsNext(value: seq<string>, v: string)
    ensures Continuations(value + [v]) == Continuations(value) + [" " + v]
  {
  }

  lemma JoinOneMore(first: string, middle: seq<string>, last: string, sep: string)
    ensures Join([first] + (middle + [last]), sep) == Join([first] + middle, sep) + sep + last
  {
    Associative([first], middle, [last]);
    JoinNext([first] + middle, sep, last);
  }

  /** Lines that continue a field extend its value, one line each. */
  lemma {:induction false} ContinuationsRead(fields: map<string, string>, key: string, first: string, more: seq<string>)
    requires forall v :: v in more ==> IsTrimmed(v)
    ensures ReadFrom(Reading(fields[key := first], Some(key)), Continuations(more))
         == Reading(fields[key := Join([first] + more, "\n")], Some(key))
  {
    var r := Reading(fields[key := first], Some(key));
    if more == [] {
      assert [first] + more == [first];
    } else {
      var front, last := more[..|more| - 1], more[|more| - 1];
      assert more == front + [last];
      ContinuationsRead(fields, key, first, front);
      var before := Join([first] + front, "\n");
      ContinuationsNext(front, last);
      FoldConcat(ReadLine, r, Continuations(front), [" " + last]);
      FoldOne(ReadLine, Reading(fields[key := before], Some(key)), " " + last);
      ContinuationReads(fields, key, before, last);
      JoinOneMore(first, front, last, "\n");
    }
  }

  lemma ContinuationTrims(v: string)
    requires IsTrimmed(v)
    ensures Continues(" " + v) && Trim(" " + v) == v
  {
    assert (" " + v)[1..] == v;
    TrimTrimmed(v);
  }

  lemma ContinuationReads(fields: map<string, string>, key: string, before: string, v: string)
    requires IsTrimmed(v)
    ensures ReadLine(Reading(fields[key := before], Some(key)), " " + v)
         == Reading(fields[key := before + "\n" + v], Some(key))
  {
    ContinuationTrims(v);
    ContinuedLine(Reading(fields[key := before], Some(key)), " " + v);
    ContinuedText(fields, key, before, v);
  }

  lemma ContinuedLine(r: Reading, line: string)
    requires Continues(line)
    ensures ReadLine(r, line) == Continued(r, Trim(line))
  {
  }

  lemma ContinuedText(fields: map<string, string>, key: string, before: string, v: string)
    ensures Continued(Reading(fields[key := before], Some(key)), v) == Reading(fields[key := before + "\n" + v], Some(key))
  {
    Associative(before, "\n", v);
    assert fields[key := before][key := before + ("\n" + v)] == fields[key := before + ("\n" + v)];
  }

  lemma FirstLineParts(key: string, v: string)
    requires IsTrimmed(key) && ':' !in key
    ensures var line := key + (": " + v);
            !Continues(line) && Cut(line, ':') == Some((key, " " + v))
  {
    var line := key + (": " + v);
    assert ": " + v == [':'] + (" " + v);
    CutReads(key, ':', " " + v);
    assert line[0] == if key == "" then ':' else key[0];
  }

  lemma HeaderReads(key: string, v: string)
    requires IsTrimmed(key) && ':' !in key && IsTrimmed(v)
    ensures Header(key + (": " + v)) == Some((key, v))
  {
    FirstLineParts(key, v);
    HeaderAt(key + (": " + v), key, " " + v);
    TrimTrimmed(key);
    ContinuationTrims(v);
  }

  lemma HeaderAt(line: string, before: string, after: string)
    requires Cut(line, ':') == Some((before, after))
    ensures Header(line) == Some((Trim(before), Trim(after)))
  {
  }

  lemma FirstLineReads(r: Reading, key: string, v: string)
    requires IsTrimmed(key) && ':' !in key && IsTrimmed(v)
    ensures ReadLine(r, key + (": " + v)) == Started(r, key, v)
  {
    FirstLineParts(key, v);
    HeaderReads(key, v);
  }

  lemma LinesRead(r: Reading, first: string, key: string, v: string, more: seq<string>)
    requires ReadLine(r, first) == Started(r, key, v)
    requires forall m :: m in more ==> IsTrimmed(m)
    ensures ReadFrom(r, [first] + Continuations(more)) == Started(r, key, Join([v] + more, "\n"))
  {
    FoldOne(ReadLine, r, first);
    FoldConcat(ReadLine, r, [first], Continuations(more));
    ContinuationsRead(r.fields, key, v, more);
  }

  lemma WrittenFieldReads(r: Reading, f: Field)
    requires WellFormedField(f)
    ensures ReadFrom(r, FieldLines(f)) == Started(r, f.key, Join(f.value, "\n"))
  {
    assert f.value[0] in f.value;
    FirstLineReads(r, f.key, f.value[0]);
    LinesRead(r, f.key + (": " + f.value[0]), f.key, f.value[0], f.value[1..]);
    assert [f.value[0]] + f.value[1..] == f.value;
  }

  lemma {:induction false} FieldsRead(fields: seq<Field>)
    requires forall f :: f in fields ==> WellFormedField(f)
    ensures ReadFrom(NOTHING, ControlLines(fields)).fields == Meaning(fields)
  {
    if fields != [] {
      var front, last := fields[..|fields| - 1], fields[|fields| - 1];
      assert last in fields;
      FieldsRead(front);
      FoldConcat(ReadLine, NOTHING, ControlLines(front), FieldLines(last));
      WrittenFieldReads(ReadFrom(NOTHING, ControlLines(front)), last);
    }
  }

  predicate IsWholeLine(line: string) {
    '\n' !in line && WithoutReturn(line) == line
  }

  /** Text in front of a trimmed value, of which neither is cut short by a line's end. */
  lemma WholeLine(front: string, v: string)
    requires front != "" && '\n' !in front && front[|front| - 1] == ' '
    requires IsTrimmed(v) && '\n' !in v
    ensures IsWholeLine(front + v)
  {
    NotInConcat('\n', front, v);
    var line := front + v;
    assert line[|line| - 1] == if v == "" then ' ' else v[|v| - 1];
  }

  lemma FieldLinesAreLines(f: Field)
    requires WellFormedField(f)
    ensures forall line :: line in FieldLines(f) ==> IsWholeLine(line)
  {
    forall i | 0 <= i < |FieldLines(f)| ensures IsWholeLine(FieldLines(f)[i]) {
      assert f.value[i] in f.value;
      if i > 0 {
        WholeLine(" ", f.value[i]);
      } else {
        Associative(f.key, ": ", f.value[0]);
        NotInConcat('\n', f.key, ": ");
        WholeLine(f.key + ": ", f.value[0]);
      }
    }
  }

  lemma {:induction false} ControlLinesAreLines(fields: seq<Field>)
    requires forall f :: f in fields ==> WellFormedField(f)
    ensures forall line :: line in ControlLines(fields) ==> IsWholeLine(line)
  {
    if fields != [] {
      assert fields[|fields| - 1] in fields;
      ControlLinesAreLines(fields[..|fields| - 1]);
      FieldLinesAreLines(fields[|fields| - 1]);
    }
  }

  /** A written control file reads back as its fields, values of several lines included. */
  lemma ControlReads(fields: seq<Field>)
    requires forall f :: f in fields ==> WellFormedField(f)
    ensures ParsedFields(ControlText(fields)) == Meaning(fields)
  {
    ControlLinesAreLines(fields);
    LinesOfEnded(ControlLines(fields));
    FieldsRead(fields);
  }
}
