/** Reading an RFC 3339 timestamp back, against the spelling of
    crates/core/src/datetime.rs. */
module TimestampReadings {
  import opened Calendar
  import opened Decimals
  import opened Text
  import opened Timestamps
  import opened Wrappers

  /** Numbers, each ended by its mark, and nothing after the last one. */
  function ReadNumbers(s: string, marks: string): Option<seq<nat>>
    decreases |s|
  {
    if marks == "" then (if s == "" then Some([]) else None)
    else
      var cut := Cut(s, marks[0]);
      if cut.None? || cut.value.0 == "" || !AllDigits(cut.value.0) then None
      else
        var rest := ReadNumbers(cut.value.1, marks[1..]);
        if rest.None? then None else Some([Value(cut.value.0)] + rest.value)
  }

  /** What ends year, month, day, hour, minute and second (section 5.6 of RFC 3339). */
  const MARKS := "--T::Z"

  /** The second since the epoch that six such numbers name. */
  function SecondOf(n: seq<nat>): Option<int>
    requires |n| == 6
  {
    var date := Date(n[0], n[1], n[2]);
    if ValidDate(date) && n[3] < 24 && n[4] < 60 && n[5] < 60 then
      Some(86_400 * DayNumber(date) + 3600 * n[3] + 60 * n[4] + n[5])
    else None
  }

  function Together(n: Option<seq<nat>>): Option<int> {
    if n.None? || |n.value| != 6 then None else SecondOf(n.value)
  }

  function ReadRfc3339(s: string): Option<int> {
    Together(ReadNumbers(s, MARKS))
  }

  /** A number, the width it is padded to, and the mark that ends it. */
  datatype Field = Field(number: nat, width: nat, mark: char)

  function Spelled(fields: seq<Field>): string {
    if fields == [] then "" else Padded(fields[0].number, fields[0].width) + [fields[0].mark] + Spelled(fields[1..])
  }

  function MarksOf(fields: seq<Field>): string {
    seq(|fields|, i requires 0 <= i < |fields| => fields[i].mark)
  }

  function NumbersOf(fields: seq<Field>): seq<nat> {
    seq(|fields|, i requires 0 <= i < |fields| => fields[i].number)
  }

  lemma {:induction false} SpelledReads(fields: seq<Field>)
    requires forall f :: f in fields ==> 0 < f.width && !IsDigit(f.mark)
    ensures ReadNumbers(Spelled(fields), MarksOf(fields)) == Some(NumbersOf(fields))
  {
    if fields != [] {
      var f, rest := fields[0], fields[1..];
      assert f in fields && forall g :: g in rest ==> g in fields;
      SpelledReads(rest);
      assert MarksOf(fields)[1..] == MarksOf(rest) && NumbersOf(fields) == [f.number] + NumbersOf(rest);
      NumberCut(f, Spelled(rest));
      FirstNumber(Spelled(fields), MarksOf(fields), Padded(f.number, f.width), Spelled(rest), NumbersOf(rest));
    }
  }

  lemma NumberCut(f: Field, rest: string)
    requires 0 < f.width && !IsDigit(f.mark)
    ensures var digits := Padded(f.number, f.width);
            Cut(digits + [f.mark] + rest, f.mark) == Some((digits, rest)) && digits != "" && AllDigits(digits) && Value(digits) == f.number
  {
    var digits := Padded(f.number, f.width);
    assert f.mark !in digits;
    assert digits + [f.mark] + rest == digits + ([f.mark] + rest);
    CutReads(digits, f.mark, rest);
  }

  lemma FirstNumber(s: string, marks: string, digits: string, rest: string, numbers: seq<nat>)
    requires marks != "" && Cut(s, marks[0]) == Some((digits, rest)) && digits != "" && AllDigits(digits)
    requires ReadNumbers(rest, marks[1..]) == Some(numbers)
    ensures ReadNumbers(s, marks) == Some([Value(digits)] + numbers)
  {
  }

  function FieldsOf(m: Moment): seq<Field>
    requires 0 <= m.date.year && 0 <= m.date.month && 0 <= m.date.day
  {
    [Field(m.date.year, 4, '-'), Field(m.date.month, 2, '-'), Field(m.date.day, 2, 'T'),
     Field(m.hour, 2, ':'), Field(m.minute, 2, ':'), Field(m.second, 2, 'Z')]
  }

  lemma SpelledThree(a: Field, b: Field, c: Field, rest: seq<Field>)
    ensures Spelled([a, b, c] + rest)
         == Padded(a.number, a.width) + [a.mark] + (Padded(b.number, b.width) + [b.mark] + (Padded(c.number, c.width) + [c.mark] + Spelled(rest)))
  {
    var (two, one) := ([b] + ([c] + rest), [c] + rest);
    assert [a, b, c] + rest == [a] + two;
    SpelledOne(a, two);
    SpelledOne(b, one);
    SpelledOne(c, rest);
  }

  lemma SpelledOne(f: Field, rest: seq<Field>)
    ensures Spelled([f] + rest) == Padded(f.number, f.width) + [f.mark] + Spelled(rest)
  {
    assert ([f] + rest)[1..] == rest;
  }

  lemma TextIsSpelled(m: Moment)
    requires 0 <= m.date.year && 0 <= m.date.month && 0 <= m.date.day
    ensures DateTimeText(m) == Spelled(FieldsOf(m))
  {
    var f := FieldsOf(m);
    var time := [f[3], f[4], f[5]];
    assert f == [f[0], f[1], f[2]] + time && time == time + [];
    SpelledThree(f[0], f[1], f[2], time);
    SpelledThree(f[3], f[4], f[5], []);
  }

  lemma MomentNumbers(m: Moment)
    requires 0 <= m.date.year && 0 <= m.date.month && 0 <= m.date.day
    ensures ReadNumbers(Rfc3339Text(m), MARKS) == Some(NumbersOf(FieldsOf(m)))
  {
    var fields := FieldsOf(m);
    Rfc3339Nests(m);
    TextIsSpelled(m);
    SpelledReads(fields);
    MarksStand(m);
  }

  lemma MarksStand(m: Moment)
    requires 0 <= m.date.year && 0 <= m.date.month && 0 <= m.date.day
    ensures MarksOf(FieldsOf(m)) == MARKS
  {
  }

  lemma NamedSecond(m: Moment, n: seq<nat>)
    requires |n| == 6
    requires ValidDate(m.date) && Date(n[0], n[1], n[2]) == m.date
    requires n[3] == m.hour < 24 && n[4] == m.minute < 60 && n[5] == m.second < 60
    ensures Together(Some(n)) == Some(86_400 * DayNumber(m.date) + SecondOfDay(m))
  {
  }

  lemma MomentReads(m: Moment)
    requires ValidDate(m.date) && 0 <= m.date.year && m.hour < 24 && m.minute < 60 && m.second < 60
    ensures ReadRfc3339(Rfc3339Text(m)) == Some(86_400 * DayNumber(m.date) + SecondOfDay(m))
  {
    MomentNumbers(m);
    NamedSecond(m, NumbersOf(FieldsOf(m)));
  }

  /** Every timestamp reads back as the second it was made from, past the year 9999 too. */
  lemma Rfc3339ReadsBack(seconds: nat)
    ensures ReadRfc3339(FormatRfc3339(seconds)) == Some(seconds)
  {
    var m := Parts(seconds);
    YearIsPositive(seconds);
    MomentReads(m);
    assert FormatRfc3339(seconds) == Rfc3339Text(m);
    assert 86_400 * DayNumber(m.date) + SecondOfDay(m) == seconds;
  }

  /** Up to that year its fields stand where section 5.6 of RFC 3339 puts them. */
  lemma Rfc3339Columns(seconds: nat)
    requires Parts(seconds).date.year <= 9999
    ensures var t := FormatRfc3339(seconds);
            |t| == 20 && t[4] == '-' && t[7] == '-' && t[10] == 'T' && t[13] == ':' && t[16] == ':' && t[19] == 'Z'
  {
    YearIsPositive(seconds);
    MomentColumns(Parts(seconds));
  }

  lemma MomentColumns(m: Moment)
    requires ValidDate(m.date) && 0 <= m.date.year <= 9999 && m.hour < 24 && m.minute < 60 && m.second < 60
    ensures var t := Rfc3339Text(m);
            |t| == 20 && t[4] == '-' && t[7] == '-' && t[10] == 'T' && t[13] == ':' && t[16] == ':' && t[19] == 'Z'
  {
    assert Power10(2) == 100;
    assert Power10(4) == 100 * Power10(2);
    Columns(Padded(m.date.year, 4), Padded(m.date.month, 2), Padded(m.date.day, 2), Padded(m.hour, 2), Padded(m.minute, 2), Padded(m.second, 2));
  }

  lemma Columns(year: string, month: string, day: string, hour: string, minute: string, second: string)
    requires |year| == 4 && |month| == |day| == |hour| == |minute| == |second| == 2
    ensures var t := year + "-" + month + "-" + day + "T" + hour + ":" + minute + ":" + second + "Z";
            |t| == 20 && t[4] == '-' && t[7] == '-' && t[10] == 'T' && t[13] == ':' && t[16] == ':' && t[19] == 'Z'
  {
  }
}
