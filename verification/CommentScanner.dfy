/** The C comment finder of style/prose-lint.py, against an automaton that reads one
    character at a time. */
module CommentScanner {
  import opened Text

  datatype Kind = Line | Block

  /** A comment as the finder reports it. */
  datatype Comment = Comment(line: nat, trailing: bool, kind: Kind, lines: seq<string>)

  /** Where a comment lies in the text. */
  datatype Span = Span(start: nat, end: nat, kind: Kind, trailing: bool)

  /** Python's `str.isspace` on one ASCII character. */
  predicate IsBlank(c: char) {
    c == ' ' || 9 <= c as int <= 13 || 28 <= c as int <= 31
  }

  predicate IsQuote(c: char) {
    c == '"' || c == '\''
  }

  function Newlines(s: string): nat {
    if s == "" then 0 else Newlines(s[..|s| - 1]) + if s[|s| - 1] == '\n' then 1 else 0
  }

  // ----- The automaton -----

  datatype State =
    | Code(seen: bool)
    | Slash(seen: bool)
    | InLine(start: nat, trailing: bool)
    | InBlock(start: nat, trailing: bool, star: bool)
    | InLiteral(quote: char, escaped: bool)

  datatype Scan = Scan(state: State, spans: seq<Span>)

  /** A character of code: what it makes of the line so far. */
  function CodeStep(seen: bool, c: char): State {
    if c == '\n' then Code(false)
    else if c == '/' then Slash(seen)
    else if IsQuote(c) then InLiteral(c, false)
    else Code(seen || !IsBlank(c))
  }

  /** The state after character `c` at index `i`. */
  function NextState(st: State, i: nat, c: char): State {
    match st
    case Code(seen) => CodeStep(seen, c)
    case Slash(seen) =>
      if c == '/' then InLine(if i == 0 then 0 else i - 1, seen)
      else if c == '*' then InBlock(if i == 0 then 0 else i - 1, seen, false)
      else CodeStep(true, c)
    case InLine(_, _) => if c == '\n' then Code(false) else st
    case InBlock(start, trailing, star) =>
      if star && c == '/' then Code(trailing) else InBlock(start, trailing, c == '*')
    case InLiteral(quote, escaped) =>
      if escaped then InLiteral(quote, false)
      else if c == '\\' then InLiteral(quote, true)
      else if c == quote then Code(true)
      else if c == '\n' then Code(false)
      else st
  }

  /** The comment that character `c` at index `i` completes, if any. */
  function Completed(st: State, i: nat, c: char): seq<Span> {
    match st
    case InLine(start, trailing) => if c == '\n' then [Span(start, i, Line, trailing)] else []
    case InBlock(start, trailing, star) => if star && c == '/' then [Span(start, i + 1, Block, trailing)] else []
    case _ => []
  }

  /** The automaton after reading the first `n` characters. */
  function Read(text: string, n: nat): Scan
    requires n <= |text|
  {
    if n == 0 then Scan(Code(false), []) else ReadChar(Read(text, n - 1), n - 1, text[n - 1])
  }

  function ReadChar(r: Scan, i: nat, c: char): Scan {
    Scan(NextState(r.state, i, c), r.spans + Completed(r.state, i, c))
  }

  /** The comment that the end of the text at `n` cuts off, if any. */
  function CutOff(st: State, n: nat): seq<Span> {
    match st
    case InLine(start, trailing) => [Span(start, n, Line, trailing)]
    case InBlock(start, trailing, _) => [Span(start, n, Block, trailing)]
    case _ => []
  }

  /** Every comment of `text`. */
  function Spans(text: string): seq<Span> {
    var end := Read(text, |text|);
    end.spans + CutOff(end.state, |text|)
  }

  /** A comment as the finder reports it: its line is 1 plus the newlines before it. */
  function Rendered(text: string, s: Span): Comment
    requires s.start <= s.end <= |text|
  {
    var raw := text[s.start..s.end];
    Comment(1 + Newlines(text[..s.start]), s.trailing, s.kind, if s.kind == Line then [raw] else Split(raw, '\n'))
  }

  lemma ReadNext(text: string, i: nat)
    requires i < |text|
    ensures
      var before := Read(text, i);
      Read(text, i + 1) == Scan(NextState(before.state, i, text[i]), before.spans + Completed(before.state, i, text[i]))
  {
  }

  // ----- What the states and spans are -----

  /** No newline between `from` and `to`. */
  predicate OneLine(s: string, from: nat, to: nat)
    requires to <= |s|
  {
    forall k :: from <= k < to ==> s[k] != '\n'
  }

  /** No star and slash, one after the other, between `from` and `to`. */
  predicate NotClosed(s: string, from: nat, to: nat)
    requires to <= |s|
  {
    forall k :: from <= k && k + 1 < to && s[k] == '*' ==> s[k + 1] != '/'
  }

  /** What the state after the first `n` characters remembers of them. */
  predicate Remembers(s: string, n: nat, st: State)
    requires n <= |s|
  {
    match st
    case Code(_) => true
    case Slash(_) => 0 < n && s[n - 1] == '/'
    case InLine(start, _) => start + 2 <= n && s[start] == '/' && s[start + 1] == '/' && OneLine(s, start, n)
    case InBlock(start, _, star) =>
      && start + 2 <= n && s[start] == '/' && s[start + 1] == '*' && NotClosed(s, start + 2, n)
      && (star <==> start + 2 < n && s[n - 1] == '*')
    case InLiteral(quote, _) => IsQuote(quote)
  }

  /** A comment of the text: it opens as its kind does, and ends at the first newline, or
      at the first star and slash after its opening, or with the text. */
  predicate IsComment(s: string, c: Span) {
    && c.start + 2 <= c.end <= |s| && s[c.start] == '/'
    && match c.kind
       case Line => s[c.start + 1] == '/' && OneLine(s, c.start, c.end) && (c.end < |s| ==> s[c.end] == '\n')
       case Block =>
         && s[c.start + 1] == '*'
         && if c.start + 4 <= c.end && s[c.end - 2] == '*' && s[c.end - 1] == '/'
            then NotClosed(s, c.start + 2, c.end - 1)
            else c.end == |s| && NotClosed(s, c.start + 2, c.end)
  }

  /** Where the next comment can start at the earliest. */
  function Frontier(st: State, n: nat): int {
    match st
    case Slash(_) => n - 1
    case InLine(start, _) => start
    case InBlock(start, _, _) => start
    case _ => n
  }

  /** The spans lie one after the other, up to `limit`. */
  ghost predicate SpansInOrder(spans: seq<Span>, limit: int) {
    && (forall k :: 0 <= k < |spans| ==> spans[k].start < spans[k].end <= limit)
    && (forall j, k :: 0 <= j < k < |spans| ==> spans[j].end <= spans[k].start)
  }

  ghost predicate AllComments(s: string, spans: seq<Span>) {
    forall k :: 0 <= k < |spans| ==> IsComment(s, spans[k])
  }

  lemma NextRemembers(s: string, i: nat, st: State)
    requires i < |s| && Remembers(s, i, st)
    ensures Remembers(s, i + 1, NextState(st, i, s[i]))
    ensures Frontier(st, i) <= Frontier(NextState(st, i, s[i]), i + 1)
    ensures forall c :: c in Completed(st, i, s[i]) ==>
      IsComment(s, c) && Frontier(st, i) <= c.start && c.end <= Frontier(NextState(st, i, s[i]), i + 1)
  {
  }

  /** A character keeps what holds of the comments so far. */
  lemma SpansNext(s: string, i: nat, st: State, spans: seq<Span>)
    requires i < |s| && Remembers(s, i, st)
    requires AllComments(s, spans) && SpansInOrder(spans, Frontier(st, i))
    ensures AllComments(s, spans + Completed(st, i, s[i]))
    ensures SpansInOrder(spans + Completed(st, i, s[i]), Frontier(NextState(st, i, s[i]), i + 1))
  {
    NextRemembers(s, i, st);
    var done := Completed(st, i, s[i]);
    if done == [] {
      assert spans + done == spans;
    } else {
      assert done == [done[0]] && done[0] in done;
      SpansAppend(s, spans, done[0], Frontier(st, i));
      SpansWithin(spans + done, done[0].end, Frontier(NextState(st, i, s[i]), i + 1));
    }
  }

  lemma SpansAppend(s: string, spans: seq<Span>, c: Span, limit: int)
    requires AllComments(s, spans) && SpansInOrder(spans, limit) && IsComment(s, c) && limit <= c.start
    ensures AllComments(s, spans + [c]) && SpansInOrder(spans + [c], c.end)
  {
  }

  lemma SpansWithin(spans: seq<Span>, limit: int, wider: int)
    requires SpansInOrder(spans, limit) && limit <= wider
    ensures SpansInOrder(spans, wider)
  {
  }

  /** What holds of the automaton after `n` characters: it remembers what it has to, and its
      comments are comments, in order and disjoint. */
  ghost predicate Holds(s: string, n: nat, r: Scan)
    requires n <= |s|
  {
    Remembers(s, n, r.state) && AllComments(s, r.spans) && SpansInOrder(r.spans, Frontier(r.state, n))
  }

  lemma HoldsNext(s: string, i: nat, r: Scan)
    requires i < |s| && Holds(s, i, r)
    ensures Holds(s, i + 1, ReadChar(r, i, s[i]))
  {
    NextRemembers(s, i, r.state);
    SpansNext(s, i, r.state, r.spans);
  }

  lemma {:induction false} ReadHolds(s: string, n: nat)
    requires n <= |s|
    ensures Holds(s, n, Read(s, n))
  {
    if n > 0 {
      ReadHolds(s, n - 1);
      HoldsNext(s, n - 1, Read(s, n - 1));
    } else {
      assert Read(s, 0) == Scan(Code(false), []);
    }
  }

  /** The comments of a text are comments, in order and disjoint. */
  lemma SpansAreComments(text: string)
    ensures AllComments(text, Spans(text)) && SpansInOrder(Spans(text), |text|)
  {
    var end := Read(text, |text|);
    ReadHolds(text, |text|);
    var cut := CutOff(end.state, |text|);
    if cut == [] {
      assert end.spans + cut == end.spans;
    } else {
      SpansAppend(text, end.spans, cut[0], Frontier(end.state, |text|));
    }
    SpansWithin(Spans(text), if cut == [] then Frontier(end.state, |text|) else |text|, |text|);
  }

  // ----- The finder -----

  /** Python's `find("\n", from)`, the length standing for "not found". */
  function NewlineFrom(s: string, from: nat): (k: nat)
    requires from <= |s|
    ensures from <= k <= |s| && OneLine(s, from, k)
    ensures k < |s| ==> s[k] == '\n'
    decreases |s| - from
  {
    if from == |s| || s[from] == '\n' then from else NewlineFrom(s, from + 1)
  }

  /** Where Python's `find("*" + "/", from)` ends, or the length when it finds nothing. */
  function CloseFrom(s: string, from: nat): (end: nat)
    requires from <= |s|
    ensures from <= end <= |s|
    decreases |s| - from
  {
    if |s| <= from + 1 then |s|
    else if s[from] == '*' && s[from + 1] == '/' then from + 2
    else CloseFrom(s, from + 1)
  }

  ghost predicate Fit(text: string, spans: seq<Span>) {
    forall k :: 0 <= k < |spans| ==> spans[k].start <= spans[k].end <= |text|
  }

  ghost function RenderedAll(text: string, spans: seq<Span>): seq<Comment>
    requires Fit(text, spans)
  {
    seq(|spans|, k requires 0 <= k < |spans| => Rendered(text, spans[k]))
  }

  /** The automaton treats the character at `n` as code, with `seen` as the line so far. */
  predicate AsCode(text: string, n: nat, st: State, seen: bool) {
    || st == Code(seen)
    || (st.Slash? && seen && (n < |text| ==> text[n] != '/' && text[n] != '*'))
  }

  function Upto(text: string, i: nat): (n: nat)
    ensures n <= |text| && n <= i
  {
    if i <= |text| then i else |text|
  }

  /** What holds between the finder at index `i` and the automaton: they have the same
      comments, once the one that ends here is counted. */
  ghost predicate InStep(text: string, i: nat, seen: bool, spans: seq<Span>) {
    var n := Upto(text, i);
    var r := Read(text, n);
    && spans == r.spans + CutOff(r.state, n)
    && (n < |text| ==>
      || AsCode(text, n, r.state, seen)
      || (text[n] == '\n' && (r.state.InLine? || (r.state.InLiteral? && !r.state.escaped))))
  }

  lemma StepNewline(text: string, i: nat, seen: bool, spans: seq<Span>)
    requires i < |text| && text[i] == '\n' && InStep(text, i, seen, spans)
    ensures InStep(text, i + 1, false, spans)
  {
    ReadNext(text, i);
    ReadHolds(text, i);
  }

  /** Ordinary code, or a slash that opens nothing. */
  lemma StepCode(text: string, i: nat, seen: bool, spans: seq<Span>)
    requires i < |text| && text[i] != '\n' && !IsQuote(text[i]) && InStep(text, i, seen, spans)
    requires text[i] == '/' && i + 1 < |text| ==> text[i + 1] != '/' && text[i + 1] != '*'
    ensures InStep(text, i + 1, seen || !IsBlank(text[i]), spans)
  {
    ReadNext(text, i);
  }

  /** Two characters that open a comment, read by the automaton. */
  lemma ReadOpening(text: string, i: nat, seen: bool, spans: seq<Span>)
    requires i + 1 < |text| && text[i] == '/' && InStep(text, i, seen, spans)
    ensures text[i + 1] == '/' ==> Read(text, i + 2) == Scan(InLine(i, seen), spans)
    ensures text[i + 1] == '*' ==> Read(text, i + 2) == Scan(InBlock(i, seen, false), spans)
  {
    ReadNext(text, i);
    ReadNext(text, i + 1);
  }

  /** Inside a line comment nothing changes up to the newline. */
  lemma {:induction false} ReadLine(text: string, lo: nat, hi: nat)
    requires lo <= hi <= |text| && OneLine(text, lo, hi) && Read(text, lo).state.InLine?
    ensures Read(text, hi) == Read(text, lo)
    decreases hi
  {
    if lo < hi {
      ReadLine(text, lo, hi - 1);
      ReadNext(text, hi - 1);
    }
  }

  lemma StepLine(text: string, i: nat, seen: bool, spans: seq<Span>)
    requires i + 1 < |text| && text[i] == '/' && text[i + 1] == '/' && InStep(text, i, seen, spans)
    ensures InStep(text, NewlineFrom(text, i), seen, spans + [Span(i, NewlineFrom(text, i), Line, seen)])
  {
    ReadOpening(text, i, seen, spans);
    ReadLine(text, i + 2, NewlineFrom(text, i));
  }

  /** The automaton at `end` has just read the block comment from `start`. */
  ghost predicate BlockRead(text: string, end: nat, start: nat, trailing: bool, spans: seq<Span>)
    requires end <= |text|
  {
    var r := Read(text, end);
    && r.spans + CutOff(r.state, end) == spans + [Span(start, end, Block, trailing)]
    && (end < |text| ==> r.state == Code(trailing))
  }

  /** From inside a block comment to its end: the automaton stops where `find` does. */
  lemma {:induction false} ReadBlock(text: string, from: nat, start: nat, trailing: bool, spans: seq<Span>)
    requires start + 2 <= from <= |text|
    requires Read(text, from) == Scan(InBlock(start, trailing, false), spans)
    ensures BlockRead(text, CloseFrom(text, from), start, trailing, spans)
    decreases |text| - from
  {
    if from < |text| {
      ReadNext(text, from);
      if text[from] == '*' {
        ReadStars(text, from, start, trailing, spans);
      } else {
        ReadBlock(text, from + 1, start, trailing, spans);
      }
    }
  }

  lemma {:induction false} ReadStars(text: string, star: nat, start: nat, trailing: bool, spans: seq<Span>)
    requires start + 2 <= star < |text| && text[star] == '*'
    requires Read(text, star + 1) == Scan(InBlock(start, trailing, true), spans)
    ensures BlockRead(text, CloseFrom(text, star), start, trailing, spans)
    decreases |text| - star - 1
  {
    if star + 1 < |text| {
      ReadNext(text, star + 1);
      if text[star + 1] == '*' {
        ReadStars(text, star + 1, start, trailing, spans);
      } else if text[star + 1] == '/' {
        assert CloseFrom(text, star) == star + 2;
      } else {
        assert CloseFrom(text, star) == CloseFrom(text, star + 1);
        ReadBlock(text, star + 2, start, trailing, spans);
      }
    }
  }

  lemma StepBlock(text: string, i: nat, seen: bool, spans: seq<Span>)
    requires i + 1 < |text| && text[i] == '/' && text[i + 1] == '*' && InStep(text, i, seen, spans)
    ensures
      var end := CloseFrom(text, i + 2);
      InStep(text, end, seen, spans + [Span(i, end, Block, seen)])
  {
    ReadOpening(text, i, seen, spans);
    ReadBlock(text, i + 2, i, seen, spans);
  }

  /** The inner loop at index `j` of a literal, which it can leave one past the end. */
  ghost predicate InLiteralAt(text: string, j: nat, quote: char, spans: seq<Span>) {
    && j <= |text| + 1
    && Read(text, Upto(text, j)) == Scan(InLiteral(quote, |text| < j), spans)
  }

  lemma StepLiteral(text: string, j: nat, quote: char, spans: seq<Span>)
    requires j < |text| && text[j] != quote && text[j] != '\n' && IsQuote(quote)
    requires InLiteralAt(text, j, quote, spans)
    ensures InLiteralAt(text, if text[j] == '\\' then j + 2 else j + 1, quote, spans)
  {
    ReadNext(text, j);
    if text[j] == '\\' && j + 1 < |text| {
      ReadNext(text, j + 1);
    }
  }

  lemma StepOpenQuote(text: string, i: nat, seen: bool, spans: seq<Span>)
    requires i < |text| && IsQuote(text[i]) && InStep(text, i, seen, spans)
    ensures InLiteralAt(text, i + 1, text[i], spans)
  {
    ReadNext(text, i);
  }

  lemma StepAfterLiteral(text: string, j: nat, quote: char, spans: seq<Span>)
    requires IsQuote(quote) && InLiteralAt(text, j, quote, spans)
    requires j < |text| ==> text[j] == quote || text[j] == '\n'
    ensures InStep(text, if j < |text| && text[j] == quote then j + 1 else j, true, spans)
  {
    if j < |text| && text[j] == quote {
      ReadNext(text, j);
    }
  }

  lemma {:induction false} NewlinesConcat(s: string, t: string)
    ensures Newlines(s + t) == Newlines(s) + Newlines(t)
  {
    if t == "" {
      assert s + t == s;
    } else {
      NewlinesConcat(s, t[..|t| - 1]);
      assert (s + t)[..|s + t| - 1] == s + t[..|t| - 1];
    }
  }

  lemma NewlinesBetween(text: string, i: nat, j: nat)
    requires i <= j <= |text|
    ensures Newlines(text[..j]) == Newlines(text[..i]) + Newlines(text[i..j])
  {
    assert text[..j] == text[..i] + text[i..j];
    NewlinesConcat(text[..i], text[i..j]);
  }

  lemma {:induction false} NoNewlines(s: string)
    requires forall k :: 0 <= k < |s| ==> s[k] != '\n'
    ensures Newlines(s) == 0
  {
    if s != "" {
      NoNewlines(s[..|s| - 1]);
    }
  }

  lemma RenderedNext(text: string, spans: seq<Span>, c: Span)
    requires Fit(text, spans) && c.start <= c.end <= |text|
    ensures Fit(text, spans + [c]) && RenderedAll(text, spans + [c]) == RenderedAll(text, spans) + [Rendered(text, c)]
  {
  }

  /** What the loop knows at index `i`. */
  ghost predicate Progress(text: string, i: nat, line: nat, seen: bool, spans: seq<Span>, out: seq<Comment>) {
    && i <= |text| + 1 && line == 1 + Newlines(text[..Upto(text, i)])
    && InStep(text, i, seen, spans)
    && Fit(text, spans) && out == RenderedAll(text, spans)
  }

  lemma ProgressNewline(text: string, i: nat, line: nat, seen: bool, spans: seq<Span>, out: seq<Comment>)
    requires i < |text| && text[i] == '\n' && Progress(text, i, line, seen, spans, out)
    ensures Progress(text, i + 1, line + 1, false, spans, out)
  {
    StepNewline(text, i, seen, spans);
    assert text[..i + 1][..i] == text[..i];
  }

  lemma ProgressCode(text: string, i: nat, line: nat, seen: bool, spans: seq<Span>, out: seq<Comment>)
    requires i < |text| && text[i] != '\n' && !IsQuote(text[i]) && Progress(text, i, line, seen, spans, out)
    requires text[i] == '/' && i + 1 < |text| ==> text[i + 1] != '/' && text[i + 1] != '*'
    ensures Progress(text, i + 1, line, seen || !IsBlank(text[i]), spans, out)
  {
    StepCode(text, i, seen, spans);
    assert text[..i + 1][..i] == text[..i];
  }

  lemma ProgressLine(text: string, i: nat, line: nat, seen: bool, spans: seq<Span>, out: seq<Comment>)
    requires i + 1 < |text| && text[i] == '/' && text[i + 1] == '/' && Progress(text, i, line, seen, spans, out)
    ensures
      var end := NewlineFrom(text, i);
      Progress(text, end, line, seen,
        spans + [Span(i, end, Line, seen)], out + [Comment(line, seen, Line, [text[i..end]])])
  {
    var end := NewlineFrom(text, i);
    StepLine(text, i, seen, spans);
    RenderedNext(text, spans, Span(i, end, Line, seen));
    NewlinesBetween(text, i, end);
    NoNewlines(text[i..end]);
  }

  lemma ProgressBlock(text: string, i: nat, line: nat, seen: bool, spans: seq<Span>, out: seq<Comment>)
    requires i + 1 < |text| && text[i] == '/' && text[i + 1] == '*' && Progress(text, i, line, seen, spans, out)
    ensures
      var end := CloseFrom(text, i + 2);
      var body := text[i..end];
      Progress(text, end, line + Newlines(body), seen,
        spans + [Span(i, end, Block, seen)], out + [Comment(line, seen, Block, Split(body, '\n'))])
  {
    var end := CloseFrom(text, i + 2);
    StepBlock(text, i, seen, spans);
    NewlinesBetween(text, i, end);
    RenderedBlock(text, i, end, line, seen, spans, out);
  }

  lemma RenderedBlock(text: string, i: nat, end: nat, line: nat, seen: bool, spans: seq<Span>, out: seq<Comment>)
    requires i <= end <= |text| && line == 1 + Newlines(text[..i])
    requires Fit(text, spans) && out == RenderedAll(text, spans)
    ensures Fit(text, spans + [Span(i, end, Block, seen)])
    ensures RenderedAll(text, spans + [Span(i, end, Block, seen)])
         == out + [Comment(line, seen, Block, Split(text[i..end], '\n'))]
  {
    RenderedNext(text, spans, Span(i, end, Block, seen));
  }

  /** Past the end of the text the loop has found what the automaton has. */
  lemma ProgressEnds(text: string, i: nat, line: nat, seen: bool, spans: seq<Span>, out: seq<Comment>)
    requires |text| <= i && Progress(text, i, line, seen, spans, out)
    ensures Fit(text, Spans(text)) && out == RenderedAll(text, Spans(text))
  {
  }

  lemma ProgressLiteral(text: string, i: nat, j: nat, line: nat, seen: bool, spans: seq<Span>, out: seq<Comment>)
    requires i < |text| && i < j && IsQuote(text[i]) && Progress(text, i, line, seen, spans, out)
    requires InLiteralAt(text, j, text[i], spans) && (j < |text| ==> text[j] == text[i] || text[j] == '\n')
    ensures Progress(text, if j < |text| && text[j] == text[i] then j + 1 else j,
                     line + Newlines(text[i..Upto(text, j)]), true, spans, out)
  {
    StepAfterLiteral(text, j, text[i], spans);
    NewlinesBetween(text, i, Upto(text, j));
    if j < |text| && text[j] == text[i] {
      NewlinesBetween(text, j, j + 1);
      NoNewlines(text[j..j + 1]);
    }
  }

  /** The finder's loops: a newline, a comment found with `find`, a literal skipped escape
      by escape, or one character of code. */
  method FindComments(text: string) returns (out: seq<Comment>)
    ensures Fit(text, Spans(text)) && out == RenderedAll(text, Spans(text))
  {
    out := [];
    var i: nat, line: nat, codeOnLine := 0, 1, false;
    ghost var spans: seq<Span> := [];
    while i < |text|
      invariant Progress(text, i, line, codeOnLine, spans, out)
      decreases |text| + 1 - i
    {
      var c := text[i];
      if c == '\n' {
        ProgressNewline(text, i, line, codeOnLine, spans, out);
        line, codeOnLine, i := line + 1, false, i + 1;
      } else if c == '/' && i + 1 < |text| && (text[i + 1] == '/' || text[i + 1] == '*') {
        var comment, end, lines := ReadComment(text, i, line, codeOnLine, spans, out);
        spans := spans + [Span(i, end, comment.kind, codeOnLine)];
        out := out + [comment];
        line, i := line + lines, end;
      } else if IsQuote(c) {
        i, line := SkipLiteral(text, i, line, codeOnLine, spans, out);
        codeOnLine := true;
      } else {
        ProgressCode(text, i, line, codeOnLine, spans, out);
        codeOnLine := codeOnLine || !IsBlank(c);
        i := i + 1;
      }
    }
    ProgressEnds(text, i, line, codeOnLine, spans, out);
  }

  /** The comment that starts at `i`: to the end of the line, or to the closing mark. */
  method ReadComment(text: string, i: nat, line: nat, seen: bool, ghost spans: seq<Span>, ghost out: seq<Comment>)
    returns (c: Comment, end: nat, lines: nat)
    requires i + 1 < |text| && text[i] == '/' && (text[i + 1] == '/' || text[i + 1] == '*')
    requires Progress(text, i, line, seen, spans, out)
    ensures i < end && Progress(text, end, line + lines, seen, spans + [Span(i, end, c.kind, seen)], out + [c])
  {
    if text[i + 1] == '/' {
      ProgressLine(text, i, line, seen, spans, out);
      end := NewlineFrom(text, i);
      c, lines := Comment(line, seen, Line, [text[i..end]]), 0;
    } else {
      ProgressBlock(text, i, line, seen, spans, out);
      end := CloseFrom(text, i + 2);
      var body := text[i..end];
      c, lines := Comment(line, seen, Block, Split(body, '\n')), Newlines(body);
    }
  }

  /** The inner loop: to the closing quote, or to the newline or end that cuts it off. */
  method SkipLiteral(text: string, i: nat, line: nat, ghost seen: bool, ghost spans: seq<Span>, ghost out: seq<Comment>)
    returns (next: nat, nextLine: nat)
    requires i < |text| && IsQuote(text[i]) && Progress(text, i, line, seen, spans, out)
    ensures i < next && Progress(text, next, nextLine, true, spans, out)
  {
    var c := text[i];
    StepOpenQuote(text, i, seen, spans);
    var j := i + 1;
    while j < |text| && text[j] != c && text[j] != '\n'
      invariant i < j && InLiteralAt(text, j, c, spans)
    {
      StepLiteral(text, j, c, spans);
      j := if text[j] == '\\' then j + 2 else j + 1;
    }
    ProgressLiteral(text, i, j, line, seen, spans, out);
    nextLine := line + Newlines(text[i..Upto(text, j)]);
    next := if j < |text| && text[j] == c then j + 1 else j;
  }

  // ----- What a trailing comment is -----

  predicate Outside(spans: seq<Span>, p: nat) {
    forall k :: 0 <= k < |spans| ==> !(spans[k].start <= p < spans[k].end)
  }

  /** Code at `p`, and no newline outside comments from there to `q`. */
  predicate Reaches(text: string, spans: seq<Span>, p: nat, q: nat)
    requires q <= |text|
  {
    && p < q && !IsBlank(text[p]) && Outside(spans, p)
    && forall m :: p < m < q && text[m] == '\n' ==> !Outside(spans, m)
  }

  ghost predicate Reached(text: string, spans: seq<Span>, q: nat)
    requires q <= |text|
  {
    exists p :: Reaches(text, spans, p, q)
  }

  /** The flag of the state says whether code reaches the place it speaks about. */
  ghost predicate FlagHolds(text: string, n: nat, r: Scan)
    requires n <= |text| && Remembers(text, n, r.state)
  {
    match r.state
    case Code(seen) => seen <==> Reached(text, r.spans, n)
    case Slash(seen) => seen <==> Reached(text, r.spans, n - 1)
    case InLine(start, trailing) => trailing <==> Reached(text, r.spans, start)
    case InBlock(start, trailing, _) => trailing <==> Reached(text, r.spans, start)
    case InLiteral(_, _) => true
  }

  /** A comment that starts at or after `q` has no say in what reaches `q`. */
  lemma ReachedUnaffected(text: string, spans: seq<Span>, later: seq<Span>, q: nat)
    requires q <= |text| && forall k :: 0 <= k < |later| ==> q <= later[k].start
    ensures Reached(text, spans + later, q) <==> Reached(text, spans, q)
  {
    forall p: nat | p < q ensures Outside(spans + later, p) <==> Outside(spans, p) {
      OutsideConcat(spans, later, p);
    }
    if Reached(text, spans, q) {
      var p: nat :| Reaches(text, spans, p, q);
      assert Reaches(text, spans + later, p, q);
    }
    if Reached(text, spans + later, q) {
      var p: nat :| Reaches(text, spans + later, p, q);
      assert Reaches(text, spans, p, q);
    }
  }

  lemma OutsideConcat(spans: seq<Span>, later: seq<Span>, p: nat)
    ensures Outside(spans + later, p) <==> Outside(spans, p) && Outside(later, p)
  {
    if Outside(spans + later, p) {
      assert forall k :: 0 <= k < |spans| ==> spans[k] == (spans + later)[k];
      assert forall k :: 0 <= k < |later| ==> later[k] == (spans + later)[|spans| + k];
    }
  }

  /** One more character outside comments: code reaches past it unless it is a newline,
      and starts at it unless it is blank. */
  lemma ReachedPast(text: string, spans: seq<Span>, q: nat)
    requires q < |text| && Outside(spans, q)
    ensures Reached(text, spans, q + 1) <==> text[q] != '\n' && (Reached(text, spans, q) || !IsBlank(text[q]))
  {
    if text[q] != '\n' && Reached(text, spans, q) {
      var p :| Reaches(text, spans, p, q);
      assert Reaches(text, spans, p, q + 1);
    }
    if !IsBlank(text[q]) {
      assert Reaches(text, spans, q, q + 1);
    }
    if Reached(text, spans, q + 1) {
      var p: nat :| Reaches(text, spans, p, q + 1);
      assert p < q ==> Reaches(text, spans, p, q);
    }
  }

  /** A whole comment is passed over, newlines and all. */
  lemma ReachedAcross(text: string, spans: seq<Span>, c: Span)
    requires c.start <= c.end <= |text| && c in spans
    ensures Reached(text, spans, c.end) <==> Reached(text, spans, c.start)
  {
    var k :| 0 <= k < |spans| && spans[k] == c;
    forall m: nat | c.start <= m < c.end ensures !Outside(spans, m) {
      assert spans[k].start <= m < spans[k].end;
    }
    if Reached(text, spans, c.start) {
      var p: nat :| Reaches(text, spans, p, c.start);
      assert Reaches(text, spans, p, c.end);
    }
    if Reached(text, spans, c.end) {
      var p: nat :| Reaches(text, spans, p, c.end);
      assert Reaches(text, spans, p, c.start);
    }
  }

  /** The spans so far, and where the next can start. */
  lemma SpansBehind(text: string, n: nat)
    requires n <= |text|
    ensures
      var r := Read(text, n);
      && Remembers(text, n, r.state)
      && forall p: nat :: Frontier(r.state, n) <= p ==> Outside(r.spans, p)
  {
    ReadHolds(text, n);
  }

  lemma {:induction false} FlagsHold(text: string, n: nat)
    requires n <= |text|
    ensures Remembers(text, n, Read(text, n).state) && FlagHolds(text, n, Read(text, n))
  {
    SpansBehind(text, n);
    if n > 0 {
      FlagsHold(text, n - 1);
      FlagStep(text, n - 1);
    }
  }

  lemma FlagStep(text: string, i: nat)
    requires i < |text|
    requires Remembers(text, i, Read(text, i).state) && FlagHolds(text, i, Read(text, i))
    requires Remembers(text, i + 1, Read(text, i + 1).state)
    ensures FlagHolds(text, i + 1, Read(text, i + 1))
  {
    var r := Read(text, i);
    ReadNext(text, i);
    assert r.spans + [] == r.spans;
    SpansBehind(text, i);
    match r.state {
      case Code(_) => ReachedPast(text, r.spans, i);
      case Slash(_) =>
        ReachedPast(text, r.spans, i - 1);
        ReachedPast(text, r.spans, i);
      case InLiteral(_, _) => ReachedPast(text, r.spans, i);
      case InLine(start, trailing) => FlagStepLine(text, i);
      case InBlock(start, trailing, star) => FlagStepBlock(text, i);
    }
  }

  lemma FlagStepLine(text: string, i: nat)
    requires i < |text| && Read(text, i).state.InLine?
    requires Remembers(text, i, Read(text, i).state) && FlagHolds(text, i, Read(text, i))
    requires Remembers(text, i + 1, Read(text, i + 1).state)
    ensures FlagHolds(text, i + 1, Read(text, i + 1))
  {
    var r := Read(text, i);
    ReadNext(text, i);
    assert r.spans + [] == r.spans;
    if text[i] == '\n' {
      var c := Span(r.state.start, i, Line, r.state.trailing);
      SpansBehind(text, i + 1);
      SpansBehind(text, i);
      assert Outside([c], i);
      OutsideConcat(r.spans, [c], i);
      ReachedPast(text, r.spans + [c], i);
    }
  }

  lemma FlagStepBlock(text: string, i: nat)
    requires i < |text| && Read(text, i).state.InBlock?
    requires Remembers(text, i, Read(text, i).state) && FlagHolds(text, i, Read(text, i))
    requires Remembers(text, i + 1, Read(text, i + 1).state)
    ensures FlagHolds(text, i + 1, Read(text, i + 1))
  {
    var r := Read(text, i);
    ReadNext(text, i);
    assert r.spans + [] == r.spans;
    if r.state.star && text[i] == '/' {
      var c := Span(r.state.start, i + 1, Block, r.state.trailing);
      ReachedUnaffected(text, r.spans, [c], c.start);
      ReachedAcross(text, r.spans + [c], c);
    }
  }

  /** Every flag agrees with what reaches the start of its comment. */
  ghost predicate FlagsMean(text: string, spans: seq<Span>) {
    forall k :: 0 <= k < |spans| ==>
      && spans[k].start <= |text|
      && (spans[k].trailing <==> Reached(text, spans, spans[k].start))
  }

  lemma FlagsMeanNext(text: string, spans: seq<Span>, c: Span, limit: nat)
    requires FlagsMean(text, spans) && SpansInOrder(spans, limit) && limit <= c.start <= |text|
    requires c.trailing <==> Reached(text, spans, c.start)
    ensures FlagsMean(text, spans + [c])
  {
    forall k | 0 <= k < |spans| + 1
      ensures (spans + [c])[k].trailing <==> Reached(text, spans + [c], (spans + [c])[k].start)
    {
      ReachedUnaffected(text, spans, [c], (spans + [c])[k].start);
    }
  }

  lemma FlagsMeanStep(text: string, i: nat, r: Scan)
    requires i < |text| && Remembers(text, i, r.state) && FlagHolds(text, i, r)
    requires FlagsMean(text, r.spans) && SpansInOrder(r.spans, Frontier(r.state, i))
    ensures FlagsMean(text, r.spans + Completed(r.state, i, text[i]))
  {
    var done := Completed(r.state, i, text[i]);
    if done == [] {
      assert r.spans + done == r.spans;
    } else {
      FlagsMeanNext(text, r.spans, done[0], done[0].start);
    }
  }

  lemma {:induction false} ReadFlagsMean(text: string, n: nat)
    requires n <= |text|
    ensures FlagsMean(text, Read(text, n).spans)
  {
    if n > 0 {
      ReadFlagsMean(text, n - 1);
      ReadHolds(text, n - 1);
      FlagsHold(text, n - 1);
      FlagsMeanStep(text, n - 1, Read(text, n - 1));
    }
  }

  /** A comment is reported as trailing exactly when code stands before it with no
      newline between them but the newlines of comments. */
  lemma TrailingMeans(text: string)
    ensures FlagsMean(text, Spans(text))
  {
    var n := |text|;
    var r := Read(text, n);
    ReadFlagsMean(text, n);
    ReadHolds(text, n);
    FlagsHold(text, n);
    var cut := CutOff(r.state, n);
    if cut == [] {
      assert r.spans + cut == r.spans;
    } else {
      FlagsMeanNext(text, r.spans, cut[0], cut[0].start);
    }
  }

  // ----- Where the flag and its description part -----

  /** What the finder's description says: code precedes the comment on its first line. */
  ghost predicate CodeOnItsLine(text: string, spans: seq<Span>, q: nat)
    requires q <= |text|
  {
    exists p :: OnLineBefore(text, spans, p, q)
  }

  predicate OnLineBefore(text: string, spans: seq<Span>, p: nat, q: nat)
    requires q <= |text|
  {
    p < q && !IsBlank(text[p]) && Outside(spans, p) && OneLine(text, p, q)
  }

  /** Outside comments nothing but blanks of one line. */
  predicate OnlyBlanks(text: string, spans: seq<Span>, from: nat, to: nat)
    requires to <= |text|
  {
    forall p :: from <= p < to && Outside(spans, p) ==> IsBlank(text[p]) && text[p] != '\n'
  }

  /** Comment `j` is a block of several lines, flagged, with nothing but blanks and other
      comments from its end to the start of comment `k`. */
  predicate FlagCarries(text: string, spans: seq<Span>, j: nat, k: nat)
    requires j < k < |spans| && spans[j].start <= spans[j].end <= |text| && spans[k].start <= |text|
  {
    && spans[j].trailing && !OneLine(text, spans[j].start, spans[j].end)
    && OnlyBlanks(text, spans, spans[j].end, spans[k].start)
  }

  function LastNewline(text: string, lo: nat, hi: nat): (m: nat)
    requires lo < hi <= |text| && !OneLine(text, lo, hi)
    ensures lo <= m < hi && text[m] == '\n' && OneLine(text, m + 1, hi)
  {
    if text[hi - 1] == '\n' then hi - 1 else LastNewline(text, lo, hi - 1)
  }

  lemma CarriedIsTrailing(text: string, j: nat, k: nat)
    requires j < k < |Spans(text)| && AllComments(text, Spans(text)) && SpansInOrder(Spans(text), |text|)
    requires FlagsMean(text, Spans(text)) && FlagCarries(text, Spans(text), j, k)
    ensures Spans(text)[k].trailing && !CodeOnItsLine(text, Spans(text), Spans(text)[k].start)
  {
    var spans := Spans(text);
    var (c, q) := (spans[j], spans[k].start);
    ReachedAcross(text, spans, c);
    var p: nat :| Reaches(text, spans, p, c.end);
    assert Reaches(text, spans, p, q);
    var m :| c.start <= m < c.end && text[m] == '\n';
    forall p': nat | p' < q && !IsBlank(text[p']) && Outside(spans, p') ensures !OneLine(text, p', q) {
      assert p' < c.start || c.end <= p';
      assert p' < m;
    }
  }

  lemma CarriedFrom(text: string, k: nat) returns (j: nat)
    requires k < |Spans(text)| && AllComments(text, Spans(text)) && SpansInOrder(Spans(text), |text|)
    requires FlagsMean(text, Spans(text))
    requires Spans(text)[k].trailing && !CodeOnItsLine(text, Spans(text), Spans(text)[k].start)
    ensures j < k && FlagCarries(text, Spans(text), j, k)
  {
    var spans := Spans(text);
    var q := spans[k].start;
    var p: nat :| Reaches(text, spans, p, q);
    assert !OnLineBefore(text, spans, p, q);
    var m := LastNewline(text, p, q);
    assert !Outside(spans, m);
    j :| 0 <= j < |spans| && spans[j].start <= m < spans[j].end;
    CarriedBetween(text, spans, p, m, j, k);
  }

  lemma CarriedBetween(text: string, spans: seq<Span>, p: nat, m: nat, j: nat, k: nat)
    requires j < |spans| && k < |spans| && SpansInOrder(spans, |text|) && FlagsMean(text, spans)
    requires Reaches(text, spans, p, spans[k].start) && !CodeOnItsLine(text, spans, spans[k].start)
    requires p <= m < spans[k].start && text[m] == '\n' && OneLine(text, m + 1, spans[k].start)
    requires spans[j].start <= m < spans[j].end
    ensures j < k && FlagCarries(text, spans, j, k)
  {
    var q := spans[k].start;
    assert p < spans[j].start;
    assert Reaches(text, spans, p, spans[j].start);
    forall x: nat | spans[j].end <= x < q && Outside(spans, x) ensures IsBlank(text[x]) && text[x] != '\n' {
      assert !OnLineBefore(text, spans, x, q);
    }
  }

  // ----- The same by the text alone -----

  /** Comment `j` is a block of several lines with code before it on its first line, and
      nothing but blanks and other comments stands from its end to the start of comment `k`. */
  ghost predicate CarriesOver(text: string, spans: seq<Span>, j: nat, k: nat)
    requires j < k < |spans| && spans[j].start <= spans[j].end <= |text| && spans[k].start <= |text|
  {
    && CodeOnItsLine(text, spans, spans[j].start) && !OneLine(text, spans[j].start, spans[j].end)
    && OnlyBlanks(text, spans, spans[j].end, spans[k].start)
  }

  /** Code on its line reaches a comment. */
  lemma CodeIsTrailing(text: string, k: nat)
    requires k < |Spans(text)|
    ensures AllComments(text, Spans(text))
    ensures CodeOnItsLine(text, Spans(text), Spans(text)[k].start) ==> Spans(text)[k].trailing
  {
    var spans := Spans(text);
    SpansAreComments(text);
    TrailingMeans(text);
    if CodeOnItsLine(text, spans, spans[k].start) {
      var p: nat :| OnLineBefore(text, spans, p, spans[k].start);
      assert Reaches(text, spans, p, spans[k].start);
    }
  }

  lemma BlanksCompose(text: string, spans: seq<Span>, i: nat, j: nat, k: nat)
    requires i < j < k < |spans| && SpansInOrder(spans, |text|)
    requires OnlyBlanks(text, spans, spans[i].end, spans[j].start) && OnlyBlanks(text, spans, spans[j].end, spans[k].start)
    ensures OnlyBlanks(text, spans, spans[i].end, spans[k].start)
  {
    forall p | spans[i].end <= p < spans[k].start && Outside(spans, p) ensures IsBlank(text[p]) && text[p] != '\n' {
      assert !(spans[j].start <= p < spans[j].end);
    }
  }

  /** From a flag that is wrong back to the block whose line it took the code from. */
  lemma {:induction false} WrongFlagIsCarried(text: string, k: nat) returns (j: nat)
    requires k < |Spans(text)| && AllComments(text, Spans(text)) && SpansInOrder(Spans(text), |text|)
    requires FlagsMean(text, Spans(text))
    requires Spans(text)[k].trailing && !CodeOnItsLine(text, Spans(text), Spans(text)[k].start)
    ensures j < k && CarriesOver(text, Spans(text), j, k)
  {
    var spans := Spans(text);
    j := CarriedFrom(text, k);
    if !CodeOnItsLine(text, spans, spans[j].start) {
      var i := WrongFlagIsCarried(text, j);
      BlanksCompose(text, spans, i, j, k);
      j := i;
    }
  }

  /** The flag is the documented one unless the text carries code over: exactly then an
      earlier block comment of several lines has code on its first line and only blanks and
      comments stand between it and the comment. */
  lemma TrailingPartsWhen(text: string, k: nat)
    requires k < |Spans(text)|
    ensures AllComments(text, Spans(text))
    ensures
      var spans := Spans(text);
      (spans[k].trailing <==> CodeOnItsLine(text, spans, spans[k].start))
        <==> !(exists j :: 0 <= j < k && CarriesOver(text, spans, j, k))
  {
    var spans := Spans(text);
    SpansAreComments(text);
    TrailingMeans(text);
    CodeIsTrailing(text, k);
    if j :| 0 <= j < k && CarriesOver(text, spans, j, k) {
      CodeIsTrailing(text, j);
      CarriedIsTrailing(text, j, k);
    }
    if spans[k].trailing && !CodeOnItsLine(text, spans, spans[k].start) {
      var j := WrongFlagIsCarried(text, k);
    }
  }

  const SPLIT_LINE := "x/*\n*//**/"

  lemma SplitLineHead()
    ensures Read(SPLIT_LINE, 6) == Scan(Code(true), [Span(1, 6, Block, true)])
  {
    assert Read(SPLIT_LINE, 0) == Scan(Code(false), []);
    ReadNext(SPLIT_LINE, 0);
    assert Read(SPLIT_LINE, 1) == Scan(Code(true), []);
    ReadNext(SPLIT_LINE, 1);
    assert Read(SPLIT_LINE, 2) == Scan(Slash(true), []);
    ReadNext(SPLIT_LINE, 2);
    assert Read(SPLIT_LINE, 3) == Scan(InBlock(1, true, false), []);
    SplitLineBlock();
  }

  lemma SplitLineBlock()
    requires Read(SPLIT_LINE, 3) == Scan(InBlock(1, true, false), [])
    ensures Read(SPLIT_LINE, 6) == Scan(Code(true), [Span(1, 6, Block, true)])
  {
    ReadNext(SPLIT_LINE, 3);
    assert Read(SPLIT_LINE, 4) == Scan(InBlock(1, true, false), []);
    ReadNext(SPLIT_LINE, 4);
    assert Read(SPLIT_LINE, 5) == Scan(InBlock(1, true, true), []);
    ReadNext(SPLIT_LINE, 5);
  }

  /** `x`, a block comment of two lines, and a comment after it: the second is reported as
      trailing, with no code before it on its line. */
  lemma TrailingCounterexample()
    ensures Spans(SPLIT_LINE) == [Span(1, 6, Block, true), Span(6, 10, Block, true)]
    ensures !CodeOnItsLine(SPLIT_LINE, Spans(SPLIT_LINE), 6)
  {
    SplitLineHead();
    ReadNext(SPLIT_LINE, 6);
    ReadNext(SPLIT_LINE, 7);
    assert Read(SPLIT_LINE, 8) == Scan(InBlock(6, true, false), [Span(1, 6, Block, true)]);
    ReadNext(SPLIT_LINE, 8);
    ReadNext(SPLIT_LINE, 9);
    var spans := Spans(SPLIT_LINE);
    assert spans[0] == Span(1, 6, Block, true);
    forall p: nat | p < 6 && Outside(spans, p) ensures !OneLine(SPLIT_LINE, p, 6) {
      assert p < spans[0].start;
      assert SPLIT_LINE[3] == '\n';
    }
  }
}
