/** Which comments the finder of style/prose-lint.py must find and what it tells of them, said
    of the text alone. */
module CommentReadings {
  import opened CommentScanner
  import opened Text

  // ----- What is reported -----

  lemma {:induction false} NewlinesCount(s: string)
    ensures |Split(s, '\n')| == 1 + Newlines(s)
    decreases |s|
  {
    var i := Find(s, '\n');
    if i == |s| {
      NoNewlines(s);
    } else {
      NewlinesCount(s[i + 1..]);
      NewlinesBetween(s, 0, i);
      NewlinesBetween(s, i, i + 1);
      NewlinesBetween(s, i + 1, |s|);
      NoNewlines(s[0..i]);
      assert s[..|s|] == s && s[i..i + 1] == ['\n'] && ['\n'][..0] == [] && s[..0] == [];
    }
  }

  /** A comment is reported with the line it starts on, counted from one, and its text, cut
      into lines if it is a block. */
  lemma RenderedMeans(text: string, s: Span)
    requires s.start <= s.end <= |text|
    ensures var c := Rendered(text, s);
            && c.line == |Split(text[..s.start], '\n')|
            && Join(c.lines, "\n") == text[s.start..s.end]
            && (s.kind == Line ==> |c.lines| == 1)
            && (s.kind == Block ==> forall line :: line in c.lines ==> '\n' !in line)
  {
    NewlinesCount(text[..s.start]);
    JoinSplit(text[s.start..s.end], '\n');
  }

  /** What counts as blank before a comment: the ASCII characters of Python's `isspace`. */
  lemma BlankCharacters(c: char)
    ensures IsBlank(c) <==> c as int in {9, 10, 11, 12, 13, 28, 29, 30, 31, 32}
  {
  }

  // ----- Literals -----

  predicate QuoteMark(c: char) {
    c as int == 34 || c as int == 39
  }

  /** Whether a backslash at the end of the text so far escapes what follows. */
  predicate Escapes(s: string) {
    s != "" && !Escapes(s[..|s| - 1]) && s[|s| - 1] == '\\'
  }

  /** A text that stands whole between two quotes: neither the quote nor a newline but behind
      an escape, and no escape of the closing quote. */
  predicate LiteralBody(body: string, quote: char) {
    && !Escapes(body)
    && forall k :: 0 <= k < |body| && (body[k] == quote || body[k] == '\n') ==> Escapes(body[..k])
  }

  lemma {:induction false} ReadLiteralBody(text: string, quote: char, body: string, k: nat)
    requires QuoteMark(quote) && LiteralBody(body, quote) && k <= |body| < |text| && text[..1 + |body|] == [quote] + body
    ensures Read(text, 1 + k) == Scan(InLiteral(quote, Escapes(body[..k])), [])
  {
    if k == 0 {
      assert text[0] == text[..1 + |body|][0] == quote;
      assert Read(text, 0) == Scan(Code(false), []);
      ReadNext(text, 0);
    } else {
      ReadLiteralBody(text, quote, body, k - 1);
      ReadNext(text, k);
      assert text[k] == text[..1 + |body|][k] == body[k - 1];
      assert body[..k][..k - 1] == body[..k - 1] && body[..k][k - 1] == body[k - 1];
    }
  }

  /** A literal of either quote holds no comment, whatever it is made of. */
  lemma LiteralHoldsNoComment(quote: char, body: string)
    requires QuoteMark(quote) && LiteralBody(body, quote)
    ensures Spans([quote] + body + [quote]) == []
  {
    var text := [quote] + body + [quote];
    assert text[..1 + |body|] == [quote] + body && body[..|body|] == body;
    ReadLiteralBody(text, quote, body, |body|);
    ReadNext(text, 1 + |body|);
  }

  // ----- Text without literals -----

  predicate WithoutQuotes(text: string) {
    forall c :: c in text ==> !QuoteMark(c)
  }

  predicate OpensAt(text: string, i: nat) {
    i + 1 < |text| && text[i] == '/' && (text[i + 1] == '/' || text[i + 1] == '*')
  }

  lemma CodeGoesOn(st: State, i: nat, c: char)
    requires st.Code? || (st.Slash? && c != '/' && c != '*')
    requires !QuoteMark(c)
    ensures if c == '/' then NextState(st, i, c).Slash? else NextState(st, i, c).Code?
    ensures Completed(st, i, c) == []
  {
  }

  /** What the automaton has read where no comment has opened. */
  predicate IsCode(text: string, n: nat, r: Scan)
    requires n <= |text|
  {
    r.spans == [] && if 0 < n && text[n - 1] == '/' then r.state.Slash? else r.state.Code?
  }

  lemma CodeIsRead(text: string, n: nat)
    requires 0 < n <= |text| && IsCode(text, n - 1, Read(text, n - 1))
    requires !QuoteMark(text[n - 1]) && (n > 1 ==> !OpensAt(text, n - 2))
    ensures IsCode(text, n, Read(text, n))
  {
    ReadNext(text, n - 1);
    CodeGoesOn(Read(text, n - 1).state, n - 1, text[n - 1]);
  }

  /** Up to the first opening the automaton reads code. */
  lemma {:induction false} ReadCode(text: string, n: nat)
    requires WithoutQuotes(text) && n <= |text| && forall i :: 0 <= i && i + 1 < n ==> !OpensAt(text, i)
    ensures IsCode(text, n, Read(text, n))
  {
    if n > 0 {
      ReadCode(text, n - 1);
      assert text[n - 1] in text;
      assert n > 1 ==> !OpensAt(text, n - 2);
      CodeIsRead(text, n);
    }
  }

  /** Whether the automaton is in a comment of a kind that started at `i`, or has read it. */
  predicate FirstIs(r: Scan, i: nat, kind: Kind) {
    if r.spans == [] then IsIn(r.state, i, kind) else r.spans[0].start == i && r.spans[0].kind == kind
  }

  predicate IsIn(st: State, i: nat, kind: Kind) {
    if kind == Line then st.InLine? && st.start == i else st.InBlock? && st.start == i
  }

  lemma CommentGoesOn(st: State, i: nat, kind: Kind, n: nat, c: char)
    requires IsIn(st, i, kind)
    ensures if Completed(st, n, c) == [] then IsIn(NextState(st, n, c), i, kind)
            else Completed(st, n, c)[0].start == i && Completed(st, n, c)[0].kind == kind
  {
  }

  /** Once a comment has opened at `i`, it is the first. */
  lemma {:induction false} FirstStays(text: string, i: nat, kind: Kind, m: nat, n: nat)
    requires m <= n <= |text| && FirstIs(Read(text, m), i, kind)
    ensures FirstIs(Read(text, n), i, kind)
    decreases n
  {
    if n > m {
      FirstStays(text, i, kind, m, n - 1);
      ReadNext(text, n - 1);
      var r := Read(text, n - 1);
      if r.spans == [] {
        CommentGoesOn(r.state, i, kind, n - 1, text[n - 1]);
        assert r.spans + Completed(r.state, n - 1, text[n - 1]) == Completed(r.state, n - 1, text[n - 1]);
      }
    }
  }

  lemma OpeningStarts(text: string, i: nat)
    requires OpensAt(text, i) && Read(text, i).state.Code? && Read(text, i).spans == []
    ensures FirstIs(Read(text, i + 2), i, if text[i + 1] == '/' then Line else Block)
  {
    ReadNext(text, i);
    ReadNext(text, i + 1);
  }

  lemma FirstIsThere(text: string, i: nat, kind: Kind)
    requires FirstIs(Read(text, |text|), i, kind)
    ensures Spans(text) != [] && Spans(text)[0].start == i && Spans(text)[0].kind == kind
  {
  }

  /** In a text without literals the first place where a comment opens is the first comment,
      of the kind that opens there, and where none opens there is none. */
  lemma FirstOpeningIsFirstComment(text: string, i: nat)
    requires WithoutQuotes(text)
    ensures OpensAt(text, i) && (forall k :: 0 <= k < i ==> !OpensAt(text, k)) ==>
              && Spans(text) != [] && Spans(text)[0].start == i
              && Spans(text)[0].kind == if text[i + 1] == '/' then Line else Block
    ensures (forall k :: 0 <= k < |text| ==> !OpensAt(text, k)) ==> Spans(text) == []
  {
    if OpensAt(text, i) && forall k :: 0 <= k < i ==> !OpensAt(text, k) {
      ReadCode(text, i);
      assert i > 0 ==> !OpensAt(text, i - 1);
      var kind := if text[i + 1] == '/' then Line else Block;
      OpeningStarts(text, i);
      FirstStays(text, i, kind, i + 2, |text|);
      FirstIsThere(text, i, kind);
    }
    if forall k :: 0 <= k < |text| ==> !OpensAt(text, k) {
      ReadCode(text, |text|);
    }
  }
}
