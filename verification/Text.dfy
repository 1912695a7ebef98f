/** Strings as the modelled code reads them: characters, searching, trimming, splitting. */
module Text {
  import opened Wrappers

  predicate IsDigit(c: char) {
    '0' <= c <= '9'
  }

  predicate AllDigits(s: string) {
    forall i :: 0 <= i < |s| ==> IsDigit(s[i])
  }

  function DigitValue(c: char): (d: nat)
    requires IsDigit(c)
    ensures d < 10
  {
    c as int - '0' as int
  }

  predicate IsAlphabetic(c: char) {
    'a' <= c <= 'z' || 'A' <= c <= 'Z'
  }

  predicate IsAlphanumeric(c: char) {
    IsDigit(c) || IsAlphabetic(c)
  }

  /** ASCII whitespace as Rust's `trim` sees it: tab to carriage return, and space. */
  predicate IsSpace(c: char) {
    c == ' ' || 9 <= c as int <= 13
  }

  /** Index of the first `c`, or the length when there is none. */
  function Find(s: string, c: char): (i: nat)
    ensures i <= |s|
    ensures forall k :: 0 <= k < i ==> s[k] != c
    ensures i < |s| ==> s[i] == c
  {
    if s == "" || s[0] == c then 0 else 1 + Find(s[1..], c)
  }

  /** Index of the last `c`, or -1 when there is none. */
  function FindLast(s: string, c: char): (i: int)
    ensures -1 <= i < |s|
    ensures forall k :: i < k < |s| ==> s[k] != c
    ensures 0 <= i ==> s[i] == c
  {
    if s == "" then -1
    else if s[|s| - 1] == c then |s| - 1
    else FindLast(s[..|s| - 1], c)
  }

  function TrimStart(s: string): (t: string)
    ensures |t| <= |s| && t == s[|s| - |t|..]
    ensures t != "" ==> !IsSpace(t[0])
    ensures forall i :: 0 <= i < |s| - |t| ==> IsSpace(s[i])
  {
    if s != "" && IsSpace(s[0]) then TrimStart(s[1..]) else s
  }

  function TrimEnd(s: string): (t: string)
    ensures |t| <= |s| && t == s[..|t|]
    ensures t != "" ==> !IsSpace(t[|t| - 1])
    ensures forall i :: |t| <= i < |s| ==> IsSpace(s[i])
  {
    if s != "" && IsSpace(s[|s| - 1]) then TrimEnd(s[..|s| - 1]) else s
  }

  function Trim(s: string): string {
    TrimEnd(TrimStart(s))
  }

  /** The pieces of `s` between occurrences of `sep`; always at least one. */
  function Split(s: string, sep: char): (parts: seq<string>)
    ensures parts != []
    decreases |s|
  {
    var i := Find(s, sep);
    if i == |s| then [s] else [s[..i]] + Split(s[i + 1..], sep)
  }

  function Join(parts: seq<string>, sep: string): string {
    if parts == [] then ""
    else if |parts| == 1 then parts[0]
    else parts[0] + sep + Join(parts[1..], sep)
  }

  lemma FindAfter(head: string, sep: char, rest: string)
    requires sep !in head
    ensures Find(head + [sep] + rest, sep) == |head|
  {
    var s := head + [sep] + rest;
    assert s[|head|] == sep;
    assert forall k :: 0 <= k < |head| ==> s[k] == head[k];
  }

  lemma SplitAfter(head: string, sep: char, rest: string)
    requires sep !in head
    ensures Split(head + [sep] + rest, sep) == [head] + Split(rest, sep)
  {
    var s := head + [sep] + rest;
    FindAfter(head, sep, rest);
    assert s[..|head|] == head && s[|head| + 1..] == rest;
  }

  lemma SplitWhole(s: string, sep: char)
    requires sep !in s
    ensures Split(s, sep) == [s]
  {
    assert Find(s, sep) == |s|;
  }

  /** Splitting undoes joining, for parts free of the separator. */
  lemma {:induction false} SplitJoin(parts: seq<string>, sep: char)
    requires parts != [] && forall p :: p in parts ==> sep !in p
    ensures Split(Join(parts, [sep]), sep) == parts
  {
    var first := parts[0];
    assert first in parts;
    if |parts| == 1 {
      SplitWhole(first, sep);
    } else {
      SplitJoin(parts[1..], sep);
      assert parts == [first] + parts[1..];
      SplitAfter(parts[0], sep, Join(parts[1..], [sep]));
    }
  }

  /** Joining undoes splitting, for every string. */
  lemma {:induction false} JoinSplit(s: string, sep: char)
    ensures Join(Split(s, sep), [sep]) == s
    ensures forall p :: p in Split(s, sep) ==> sep !in p
    decreases |s|
  {
    var i := Find(s, sep);
    if i < |s| {
      JoinSplit(s[i + 1..], sep);
      assert s == s[..i] + [sep] + s[i + 1..];
    }
  }

  /** Each line ended by a newline. */
  function Ended(lines: seq<string>): string {
    if lines == [] then "" else lines[0] + "\n" + Ended(lines[1..])
  }

  function WithoutReturn(line: string): string {
    if line != "" && line[|line| - 1] == '\r' then line[..|line| - 1] else line
  }

  /** Rust's `str::lines`: the pieces that a newline ends, each without a carriage return
      before it, and what is left over unless that is nothing. */
  function Lines(s: string): seq<string>
    decreases |s|
  {
    var i := Find(s, '\n');
    if i < |s| then [WithoutReturn(s[..i])] + Lines(s[i + 1..])
    else if s == "" then [] else [s]
  }

  lemma LinesAfter(line: string, rest: string)
    requires '\n' !in line
    ensures Lines(line + "\n" + rest) == [WithoutReturn(line)] + Lines(rest)
  {
    var s := line + "\n" + rest;
    FindAfter(line, '\n', rest);
    assert s[..|line|] == line && s[|line| + 1..] == rest;
  }

  lemma {:induction false} LinesOfEnded(lines: seq<string>)
    requires forall line :: line in lines ==> '\n' !in line && WithoutReturn(line) == line
    ensures Lines(Ended(lines)) == lines
  {
    if lines != [] {
      assert lines[0] in lines;
      LinesOfEnded(lines[1..]);
      LinesAfter(lines[0], Ended(lines[1..]));
      assert lines == [lines[0]] + lines[1..];
    }
  }

  /** Joining one piece more. */
  lemma {:induction false} JoinNext(parts: seq<string>, sep: string, part: string)
    requires parts != []
    ensures Join(parts + [part], sep) == Join(parts, sep) + sep + part
  {
    FrontOfConcat(parts, [part]);
    if |parts| > 1 {
      JoinNext(parts[1..], sep, part);
    } else {
      assert (parts + [part])[1..] == [part];
    }
  }

  predicate StartsWith(s: string, prefix: string) {
    |prefix| <= |s| && s[..|prefix|] == prefix
  }

  predicate EndsWith(s: string, suffix: string) {
    |suffix| <= |s| && s[|s| - |suffix|..] == suffix
  }

  predicate IsTrimmed(s: string) {
    s == "" || (!IsSpace(s[0]) && !IsSpace(s[|s| - 1]))
  }

  lemma TrimPadded(before: string, s: string, after: string)
    requires IsTrimmed(s) && s != ""
    requires forall c :: c in before || c in after ==> IsSpace(c)
    ensures Trim(before + s + after) == s
  {
    Associative(before, s, after);
    assert (s + after)[0] == s[0];
    TrimStartPadded(before, s + after);
    TrimEndPadded(s, after);
  }

  lemma {:induction false} TrimStartPadded(before: string, s: string)
    requires s != "" && !IsSpace(s[0]) && forall c :: c in before ==> IsSpace(c)
    ensures TrimStart(before + s) == s
  {
    if before == "" {
      assert before + s == s;
    } else {
      FrontOfConcat(before, s);
      assert before[0] in before;
      TrimStartPadded(before[1..], s);
    }
  }

  lemma {:induction false} TrimEndPadded(s: string, after: string)
    requires s != "" && !IsSpace(s[|s| - 1]) && forall c :: c in after ==> IsSpace(c)
    ensures TrimEnd(s + after) == s
  {
    if after == "" {
      assert s + after == s;
    } else {
      assert (s + after)[..|s + after| - 1] == s + after[..|after| - 1];
      TrimEndPadded(s, after[..|after| - 1]);
    }
  }

  lemma TrimTrimmed(s: string)
    requires IsTrimmed(s)
    ensures Trim(s) == s
  {
  }

  lemma TrimIsTrimmed(s: string)
    ensures IsTrimmed(Trim(s))
  {
  }

  lemma Associative<T>(a: seq<T>, b: seq<T>, c: seq<T>)
    ensures (a + b) + c == a + (b + c)
  {
  }

  lemma FrontOfConcat<T>(a: seq<T>, b: seq<T>)
    requires a != []
    ensures (a + b)[0] == a[0] && (a + b)[1..] == a[1..] + b
  {
  }

  lemma {:induction false} FindPast(head: string, tail: string, c: char)
    requires c !in head
    ensures Find(head + tail, c) == |head| + Find(tail, c)
  {
    if head == "" {
      assert head + tail == tail;
    } else {
      FrontOfConcat(head, tail);
      FindPast(head[1..], tail, c);
    }
  }

  /** Trailing spaces go, and a trimmed text stays. */
  lemma TrimAfter(s: string, after: string)
    requires IsTrimmed(s) && s != "" && forall c :: c in after ==> IsSpace(c)
    ensures Trim(s + after) == s
  {
    assert (s + after)[0] == s[0];
    TrimEndPadded(s, after);
  }

  lemma Around<T>(s: seq<T>, i: nat)
    requires i < |s|
    ensures s == (s[..i] + [s[i]]) + s[i + 1..]
  {
  }

  lemma NotInConcat(c: char, a: string, b: string)
    requires c !in a && c !in b
    ensures c !in a + b
  {
  }

  lemma TrimAfterSpace(s: string)
    requires IsTrimmed(s) && s != ""
    ensures Trim(s + " ") == s
  {
    TrimAfter(s, " ");
  }

  lemma Prefix<T>(a: seq<T>, b: seq<T>)
    ensures (a + b)[..|a|] == a && (a + b)[|a|..] == b
  {
  }

  lemma FrontOfTake<T>(s: seq<T>, i: nat)
    requires i < |s|
    ensures |s[..i + 1]| == i + 1 && s[..i + 1][..i] == s[..i] && s[..i + 1][i] == s[i]
  {
  }

  lemma InFrontOrLast<T>(s: seq<T>)
    requires s != []
    ensures forall x :: x in s <==> x in s[..|s| - 1] || x == s[|s| - 1]
  {
    assert s == s[..|s| - 1] + [s[|s| - 1]];
  }

  predicate OccursAt(s: string, pattern: string, i: nat) {
    i + |pattern| <= |s| && s[i..i + |pattern|] == pattern
  }

  predicate Contains(s: string, pattern: string) {
    exists i :: 0 <= i <= |s| && OccursAt(s, pattern, i)
  }

  /** Rust's `split_once`: what stands before and after the first `c`. */
  function Cut(s: string, c: char): Option<(string, string)> {
    var i := Find(s, c);
    if i == |s| then None else Some((s[..i], s[i + 1..]))
  }

  lemma CutReads(head: string, c: char, rest: string)
    requires c !in head
    ensures Cut(head + ([c] + rest), c) == Some((head, rest))
  {
    FindPast(head, [c] + rest, c);
    assert Find([c] + rest, c) == 0;
    Prefix(head, [c] + rest);
    assert (head + ([c] + rest))[|head| + 1..] == rest;
  }
}
