/** The sortable timestamp spellings of crates/core/src/datetime.rs. */
module Timestamps {
  import opened Calendar
  import opened Decimals
  import opened Orders
  import opened Text

  datatype Moment = Moment(date: Date, hour: nat, minute: nat, second: nat)

  function SecondOfDay(m: Moment): int {
    3600 * m.hour + 60 * m.minute + m.second
  }

  /** Whole Unix seconds as a UTC date and time of day. */
  function Parts(seconds: nat): (m: Moment)
    ensures m.hour < 24 && m.minute < 60 && m.second < 60
    ensures SecondOfDay(m) == seconds % 86_400
  {
    var secondOfDay := seconds % 86_400;
    TimeSplit(secondOfDay);
    Moment(CivilFromDays(seconds / 86_400), secondOfDay / 3600, secondOfDay % 3600 / 60, secondOfDay % 60)
  }

  lemma TimeSplit(n: nat)
    requires n < 86_400
    ensures 0 <= n / 3600 < 24 && 0 <= n % 3600 / 60 < 60
    ensures 3600 * (n / 3600) + 60 * (n % 3600 / 60) + n % 60 == n
  {
    var h, r := n / 3600, n % 3600;
    assert n == 60 * (60 * h + r / 60) + r % 60;
  }

  /** Every date since the epoch has a positive year, which `{y:04}` prints as digits. */
  lemma YearIsPositive(seconds: nat)
    ensures ValidDate(Parts(seconds).date) && 1970 <= Parts(seconds).date.year
    ensures DayNumber(Parts(seconds).date) == seconds / 86_400
  {
    CivilInvertsCounting(seconds / 86_400);
    SinceEpoch(Parts(seconds).date);
  }

  lemma SinceEpoch(d: Date)
    requires ValidDate(d) && 0 <= DayNumber(d)
    ensures 1970 <= d.year
  {
    assert DayNumber(EPOCH) == 0;
    if d.year < 1970 {
      EarlierDateIsEarlierDay(d, EPOCH);
    }
  }

  function CompareDates(d: Date, e: Date): Ordering {
    CompareInt(d.year, e.year).Then(CompareInt(d.month, e.month)).Then(CompareInt(d.day, e.day))
  }

  /** Year, month, day order is day-number order. */
  lemma DateOrderIsDayOrder(d: Date, e: Date)
    requires ValidDate(d) && ValidDate(e)
    ensures CompareDates(d, e) == CompareInt(DayNumber(d), DayNumber(e))
  {
    if CompareDates(d, e) == Less {
      EarlierDateIsEarlierDay(d, e);
    } else if CompareDates(d, e) == Greater {
      EarlierDateIsEarlierDay(e, d);
    }
  }

  lemma EarlierDateIsEarlierDay(d: Date, e: Date)
    requires ValidDate(d) && ValidDate(e) && CompareDates(d, e) == Less
    ensures DayNumber(d) < DayNumber(e)
  {
    MarchDayRange(d);
    MarchDayRange(e);
    if MarchYear(d) < MarchYear(e) {
      DaysToMarchMonotone(MarchYear(d), MarchYear(e));
    } else {
      LaterInMarchYear(d, e);
    }
  }

  lemma LaterInMarchYear(d: Date, e: Date)
    requires ValidDate(d) && ValidDate(e) && CompareDates(d, e) == Less && MarchYear(d) >= MarchYear(e)
    ensures MarchYear(d) == MarchYear(e) && MarchDay(d) < MarchDay(e)
  {
  }

  // ----- Weekdays -----

  const WEEKDAYS := ["Thu", "Fri", "Sat", "Sun", "Mon", "Tue", "Wed"]

  function Weekday(seconds: nat): string {
    WEEKDAYS[seconds / 86_400 % 7]
  }

  /** The weekday goes with the date alone. */
  lemma WeekdayFollowsTheDate(seconds: nat)
    ensures Weekday(seconds) == WEEKDAYS[DayNumber(Parts(seconds).date) % 7]
  {
    YearIsPositive(seconds);
  }

  /** It moves on by one with the calendar's next day, and the calendar's cycle of 400 years
      is a whole number of weeks. */
  lemma WeekdaysCycle(d: Date)
    requires ValidDate(d)
    ensures DayNumber(NextDate(d)) % 7 == (DayNumber(d) % 7 + 1) % 7
    ensures DayNumber(d.(year := d.year + 400)) % 7 == DayNumber(d) % 7
  {
    NextDateCounts(d);
    OneDayLater(DayNumber(d));
    FourCenturies(d);
    WeeksLater(DayNumber(d), 20_871);
  }

  /** The day after a day of the week. */
  function DayAfter(day: string): string {
    match day
    case "Mon" => "Tue"
    case "Tue" => "Wed"
    case "Wed" => "Thu"
    case "Thu" => "Fri"
    case "Fri" => "Sat"
    case "Sat" => "Sun"
    case _ => "Mon"
  }

  /** The first second is on a Thursday, the whole of a day has one weekday, and the next
      day has the next. */
  lemma WeekdaysInOrder(day: nat, second: nat)
    requires second < 86_400
    ensures Weekday(0) == "Thu"
    ensures Weekday(86_400 * day + second) == Weekday(86_400 * day)
    ensures Weekday(86_400 * (day + 1)) == DayAfter(Weekday(86_400 * day))
  {
    var k := day % 7;
    assert (86_400 * day + second) / 86_400 == day && 86_400 * (day + 1) / 86_400 == day + 1;
    OneDayLater(day);
    NamesInOrder(k);
  }

  lemma NamesInOrder(k: nat)
    requires k < 7
    ensures WEEKDAYS[(k + 1) % 7] == DayAfter(WEEKDAYS[k])
  {
    assert k == 0 || k == 1 || k == 2 || k == 3 || k == 4 || k == 5 || k == 6;
  }

  lemma OneDayLater(day: int)
    ensures (day + 1) % 7 == (day % 7 + 1) % 7
  {
  }

  lemma FourCenturies(d: Date)
    ensures DayNumber(d.(year := d.year + 400)) == DayNumber(d) + 7 * 20_871
  {
    var y := MarchYear(d);
    assert (y + 400) / 4 == y / 4 + 100 && (y + 400) / 100 == y / 100 + 4 && (y + 400) / 400 == y / 400 + 1;
  }

  lemma WeeksLater(day: int, weeks: int)
    ensures (day + 7 * weeks) % 7 == day % 7
  {
  }

  // ----- The two spellings -----

  function Rfc3339Text(m: Moment): string
    requires 0 <= m.date.year && 0 <= m.date.month && 0 <= m.date.day
  {
    Padded(m.date.year, 4) + "-" + Padded(m.date.month, 2) + "-" + Padded(m.date.day, 2)
      + "T" + Padded(m.hour, 2) + ":" + Padded(m.minute, 2) + ":" + Padded(m.second, 2) + "Z"
  }

  function CompactText(m: Moment): string
    requires 0 <= m.date.year && 0 <= m.date.month && 0 <= m.date.day
  {
    Padded(m.date.year, 4) + Padded(m.date.month, 2) + Padded(m.date.day, 2)
      + "T" + Padded(m.hour, 2) + Padded(m.minute, 2) + Padded(m.second, 2) + "Z"
  }

  function FormatRfc3339(seconds: nat): string {
    YearIsPositive(seconds);
    Rfc3339Text(Parts(seconds))
  }

  function FormatCompact(seconds: nat): string {
    YearIsPositive(seconds);
    CompactText(Parts(seconds))
  }

  /** A field and the separator after it, in front of the rest. */
  lemma FieldCompare(m: nat, n: nat, width: nat, mark: string, x: string, y: string)
    requires m < Power10(width) && n < Power10(width)
    ensures CompareStrings(Padded(m, width) + mark + x, Padded(n, width) + mark + y)
         == CompareInt(m, n).Then(CompareStrings(x, y))
  {
    PaddedCompare(m, n, width);
    assert Padded(m, width) + mark + x == Padded(m, width) + (mark + x);
    assert Padded(n, width) + mark + y == Padded(n, width) + (mark + y);
    CompareConcat(Padded(m, width), mark + x, Padded(n, width), mark + y);
    CompareConcat(mark, x, mark, y);
    CompareStringsTotal(mark, mark);
  }

  function TimeText(m: Moment): string {
    Padded(m.hour, 2) + ":" + (Padded(m.minute, 2) + ":" + (Padded(m.second, 2) + "Z" + ""))
  }

  function DateTimeText(m: Moment): string
    requires 0 <= m.date.year && 0 <= m.date.month && 0 <= m.date.day
  {
    Padded(m.date.year, 4) + "-" + (Padded(m.date.month, 2) + "-" + (Padded(m.date.day, 2) + "T" + TimeText(m)))
  }

  lemma TimeTextCompare(a: Moment, b: Moment)
    requires a.hour < 24 && a.minute < 60 && a.second < 60
    requires b.hour < 24 && b.minute < 60 && b.second < 60
    ensures CompareStrings(TimeText(a), TimeText(b))
         == CompareInt(3600 * a.hour + 60 * a.minute + a.second, 3600 * b.hour + 60 * b.minute + b.second)
  {
    assert Power10(2) == 100;
    var (sa, sb) := (Padded(a.second, 2) + "Z" + "", Padded(b.second, 2) + "Z" + "");
    var (ma, mb) := (Padded(a.minute, 2) + ":" + sa, Padded(b.minute, 2) + ":" + sb);
    assert CompareStrings(sa, sb) == CompareInt(a.second, b.second) by {
      FieldCompare(a.second, b.second, 2, "Z", "", "");
    }
    assert CompareStrings(ma, mb) == CompareInt(a.minute, b.minute).Then(CompareStrings(sa, sb)) by {
      FieldCompare(a.minute, b.minute, 2, ":", sa, sb);
    }
    assert CompareStrings(TimeText(a), TimeText(b)) == CompareInt(a.hour, b.hour).Then(CompareStrings(ma, mb)) by {
      FieldCompare(a.hour, b.hour, 2, ":", ma, mb);
    }
    CompareTimes(a, b);
  }

  lemma CompareTimes(a: Moment, b: Moment)
    requires a.hour < 24 && a.minute < 60 && a.second < 60
    requires b.hour < 24 && b.minute < 60 && b.second < 60
    ensures CompareInt(a.hour, b.hour).Then(CompareInt(a.minute, b.minute).Then(CompareInt(a.second, b.second)))
         == CompareInt(3600 * a.hour + 60 * a.minute + a.second, 3600 * b.hour + 60 * b.minute + b.second)
  {
  }

  lemma DateTimeTextCompare(a: Moment, b: Moment)
    requires 0 <= a.date.year <= 9999 && 0 <= a.date.month < 100 && 0 <= a.date.day < 100
    requires 0 <= b.date.year <= 9999 && 0 <= b.date.month < 100 && 0 <= b.date.day < 100
    ensures CompareStrings(DateTimeText(a), DateTimeText(b))
         == CompareDates(a.date, b.date).Then(CompareStrings(TimeText(a), TimeText(b)))
  {
    assert Power10(2) == 100;
    assert Power10(4) == 100 * Power10(2);
    var (ta, tb) := (TimeText(a), TimeText(b));
    var (da, db) := (Padded(a.date.day, 2) + "T" + ta, Padded(b.date.day, 2) + "T" + tb);
    var (ma, mb) := (Padded(a.date.month, 2) + "-" + da, Padded(b.date.month, 2) + "-" + db);
    assert CompareStrings(da, db) == CompareInt(a.date.day, b.date.day).Then(CompareStrings(ta, tb)) by {
      FieldCompare(a.date.day, b.date.day, 2, "T", ta, tb);
    }
    assert CompareStrings(ma, mb) == CompareInt(a.date.month, b.date.month).Then(CompareStrings(da, db)) by {
      FieldCompare(a.date.month, b.date.month, 2, "-", da, db);
    }
    FieldCompare(a.date.year, b.date.year, 4, "-", ma, mb);
  }

  lemma FormatIsText(seconds: nat)
    ensures ValidDate(Parts(seconds).date) && 1970 <= Parts(seconds).date.year
    ensures FormatRfc3339(seconds) == DateTimeText(Parts(seconds))
  {
    YearIsPositive(seconds);
    Rfc3339Nests(Parts(seconds));
  }

  lemma Rfc3339Nests(m: Moment)
    requires 0 <= m.date.year && 0 <= m.date.month && 0 <= m.date.day
    ensures Rfc3339Text(m) == DateTimeText(m)
  {
    Rfc3339Parts(Padded(m.date.year, 4), Padded(m.date.month, 2), Padded(m.date.day, 2),
                 Padded(m.hour, 2), Padded(m.minute, 2), Padded(m.second, 2));
  }

  lemma Rfc3339Parts(year: string, month: string, day: string, hour: string, minute: string, second: string)
    ensures year + "-" + month + "-" + day + "T" + hour + ":" + minute + ":" + second + "Z"
         == year + "-" + (month + "-" + (day + "T" + (hour + ":" + (minute + ":" + (second + "Z" + "")))))
  {
  }

  /** Up to the year 9999 the RFC 3339 spellings sort in time order. */
  lemma Rfc3339SortsInTimeOrder(s: nat, t: nat)
    requires Parts(s).date.year <= 9999 && Parts(t).date.year <= 9999
    ensures CompareStrings(FormatRfc3339(s), FormatRfc3339(t)) == CompareInt(s, t)
  {
    var (a, b) := (Parts(s), Parts(t));
    FormatIsText(s);
    FormatIsText(t);
    YearIsPositive(s);
    YearIsPositive(t);
    MonthAndDayFit(a.date);
    MonthAndDayFit(b.date);
    DateTimeTextCompare(a, b);
    TimeTextCompare(a, b);
    DateOrderIsDayOrder(a.date, b.date);
    SecondsByDay(s, t);
  }

  lemma MonthAndDayFit(d: Date)
    requires ValidDate(d)
    ensures 0 <= d.month < 100 && 0 <= d.day < 100
  {
  }

  lemma SecondsByDay(s: nat, t: nat)
    ensures CompareInt(s, t) == CompareInt(s / 86_400, t / 86_400).Then(CompareInt(s % 86_400, t % 86_400))
  {
  }

  // ----- One spelling is the other without its punctuation -----

  predicate IsPunctuation(c: char) {
    c == '-' || c == ':'
  }

  /** Rust's `replace(['-', ':'], "")`. */
  function WithoutPunctuation(s: string): string {
    if s == "" then ""
    else if IsPunctuation(s[0]) then WithoutPunctuation(s[1..])
    else [s[0]] + WithoutPunctuation(s[1..])
  }

  lemma {:induction false} WithoutPunctuationConcat(s: string, t: string)
    ensures WithoutPunctuation(s + t) == WithoutPunctuation(s) + WithoutPunctuation(t)
  {
    if s == "" {
      assert s + t == t;
    } else {
      WithoutPunctuationConcat(s[1..], t);
      FrontOfConcat(s, t);
      Associative([s[0]], WithoutPunctuation(s[1..]), WithoutPunctuation(t));
    }
  }

  lemma {:induction false} DigitsAreNotPunctuation(s: string)
    requires AllDigits(s)
    ensures WithoutPunctuation(s) == s
  {
    if s != "" {
      DigitsAreNotPunctuation(s[1..]);
    }
  }

  /** A number and a mark that is dropped, in front of the rest. */
  lemma DroppedMark(n: nat, width: nat, mark: char, rest: string)
    requires IsPunctuation(mark)
    ensures WithoutPunctuation(Padded(n, width) + [mark] + rest) == Padded(n, width) + WithoutPunctuation(rest)
  {
    MarkedText(Padded(n, width), mark, rest);
  }

  /** Digits, a mark, and the rest. */
  lemma MarkedText(digits: string, mark: char, rest: string)
    requires AllDigits(digits)
    ensures WithoutPunctuation(digits + [mark] + rest)
         == if IsPunctuation(mark) then digits + WithoutPunctuation(rest) else digits + [mark] + WithoutPunctuation(rest)
  {
    DigitsAreNotPunctuation(digits);
    WithoutPunctuationConcat(digits + [mark], rest);
    WithoutPunctuationConcat(digits, [mark]);
    assert [mark][1..] == "";
  }

  /** A number and a mark that is kept. */
  lemma KeptMark(n: nat, width: nat, mark: char, rest: string)
    requires !IsPunctuation(mark)
    ensures WithoutPunctuation(Padded(n, width) + [mark] + rest) == Padded(n, width) + [mark] + WithoutPunctuation(rest)
  {
    MarkedText(Padded(n, width), mark, rest);
  }

  function CompactTime(m: Moment): string {
    Padded(m.hour, 2) + (Padded(m.minute, 2) + (Padded(m.second, 2) + "Z" + ""))
  }

  lemma CompactTimeIsTime(m: Moment)
    ensures CompactTime(m) == WithoutPunctuation(TimeText(m))
  {
    var s0 := Padded(m.second, 2) + "Z" + "";
    KeptMark(m.second, 2, 'Z', "");
    DroppedMark(m.minute, 2, ':', s0);
    DroppedMark(m.hour, 2, ':', Padded(m.minute, 2) + ":" + s0);
  }

  function CompactDateTime(m: Moment): string
    requires 0 <= m.date.year && 0 <= m.date.month && 0 <= m.date.day
  {
    Padded(m.date.year, 4) + (Padded(m.date.month, 2) + (Padded(m.date.day, 2) + "T" + CompactTime(m)))
  }

  lemma FormatCompactIsText(seconds: nat)
    ensures ValidDate(Parts(seconds).date) && 1970 <= Parts(seconds).date.year
    ensures FormatCompact(seconds) == CompactDateTime(Parts(seconds))
  {
    YearIsPositive(seconds);
    CompactNests(Parts(seconds));
  }

  lemma CompactNests(m: Moment)
    requires 0 <= m.date.year && 0 <= m.date.month && 0 <= m.date.day
    ensures CompactText(m) == CompactDateTime(m)
  {
    CompactParts(Padded(m.date.year, 4), Padded(m.date.month, 2), Padded(m.date.day, 2),
                 Padded(m.hour, 2), Padded(m.minute, 2), Padded(m.second, 2));
  }

  lemma CompactParts(year: string, month: string, day: string, hour: string, minute: string, second: string)
    ensures year + month + day + "T" + hour + minute + second + "Z"
         == year + (month + (day + "T" + (hour + (minute + (second + "Z" + "")))))
  {
  }

  /** For every moment, dropping the punctuation of the RFC 3339 spelling gives the
      compact one. */
  lemma CompactIsRfc3339WithoutPunctuation(seconds: nat)
    ensures FormatCompact(seconds) == WithoutPunctuation(FormatRfc3339(seconds))
  {
    FormatIsText(seconds);
    FormatCompactIsText(seconds);
    var m := Parts(seconds);
    CompactTimeIsTime(m);
    var d0 := Padded(m.date.day, 2) + "T" + TimeText(m);
    KeptMark(m.date.day, 2, 'T', TimeText(m));
    DroppedMark(m.date.month, 2, '-', d0);
    DroppedMark(m.date.year, 4, '-', Padded(m.date.month, 2) + "-" + d0);
  }
}
