/** dpkg's version order, as crates/core/src/debdep.rs computes it, against the order of
    canonical keys that section 5.6.12 of Debian Policy describes. */
module Versions {
  import opened Decimals
  import opened Orders
  import opened Text
  import opened Wrappers

  // ----- Runs, ordinals and numbers -----

  /** Length of the leading run of digits (or of non-digits). */
  function RunLength(s: string, digits: bool): (n: nat)
    ensures n <= |s|
    ensures forall i :: 0 <= i < n ==> IsDigit(s[i]) == digits
    ensures n < |s| ==> IsDigit(s[n]) != digits
  {
    if s != "" && IsDigit(s[0]) == digits then 1 + RunLength(s[1..], digits) else 0
  }

  /** A run is the unique split of `s` after which the predicate first fails. */
  lemma {:induction false} RunLengthIs(run: string, rest: string, digits: bool)
    requires forall i :: 0 <= i < |run| ==> IsDigit(run[i]) == digits
    requires rest != "" ==> IsDigit(rest[0]) != digits
    ensures RunLength(run + rest, digits) == |run|
  {
    var s := run + rest;
    assert forall i :: 0 <= i < |run| ==> s[i] == run[i];
    assert rest != "" ==> s[|run|] == rest[0];
  }

  /** dpkg's ordinal of a character, with end of string between `~` and the letters. */
  function Ordinal(c: char): (o: int)
    ensures o != 0
    ensures o < 0 <==> c == '~'
  {
    if c == '~' then -1
    else if IsAlphabetic(c) then c as int
    else c as int + 256
  }

  function HeadOrdinal(s: string): int {
    if s == "" then 0 else Ordinal(s[0])
  }

  lemma OrdinalInjective(c: char, d: char)
    requires Ordinal(c) == Ordinal(d)
    ensures c == d
  {
  }

  /** What dpkg asks of the ordinal: `~` below the end, the end below letters, letters below
      the rest, and within each of these the code of the character. */
  lemma OrdinalMeans(c: char, d: char)
    ensures Ordinal(c) < Ordinal(d) <==>
            if c == '~' || d == '~' then c == '~' && d != '~'
            else if IsAlphabetic(c) != IsAlphabetic(d) then IsAlphabetic(c)
            else c < d
    ensures Ordinal(c) < HeadOrdinal("") <==> c == '~'
  {
  }

  function Tail<T>(s: seq<T>): seq<T> {
    if s == [] then [] else s[1..]
  }

  /** Lexicographic order of two runs of non-digits, each padded with end-of-string. */
  function CompareText(a: string, b: string): Ordering
    decreases |a| + |b|
  {
    if a == "" && b == "" then Equal
    else CompareInt(HeadOrdinal(a), HeadOrdinal(b)).Then(CompareText(Tail(a), Tail(b)))
  }

  lemma {:induction false} CompareTextTotal(a: string, b: string)
    ensures CompareText(b, a) == CompareText(a, b).Flip()
    ensures CompareText(a, b) == Equal <==> a == b
    decreases |a| + |b|
  {
    if a != "" || b != "" {
      CompareTextTotal(Tail(a), Tail(b));
      if a != "" && b != "" {
        assert a == [a[0]] + a[1..] && b == [b[0]] + b[1..];
        if Ordinal(a[0]) == Ordinal(b[0]) {
          OrdinalInjective(a[0], b[0]);
        }
      }
    }
  }

  lemma {:induction false} CompareTextChained(a: string, b: string, c: string)
    ensures Chained(CompareText(a, b), CompareText(b, c), CompareText(a, c))
    decreases |a| + |b| + |c|
  {
    if a != "" || b != "" || c != "" {
      CompareTextChained(Tail(a), Tail(b), Tail(c));
    }
  }

  // ----- Canonical keys -----

  /** One alternation of a version part: a non-digit run, then a number. */
  datatype Chunk = Chunk(text: string, number: nat)

  /** The chunks of a version part. Past its end, a part goes on as (empty, 0) forever. */
  function Key(s: string): seq<Chunk>
    decreases |s|
  {
    if s == "" then [] else [HeadChunk(s)] + Key(AfterChunk(s))
  }

  /** The digits after the leading non-digit run. */
  function HeadDigits(s: string): (d: string)
    ensures AllDigits(d)
  {
    var t := s[RunLength(s, false)..];
    t[..RunLength(t, true)]
  }

  function HeadChunk(s: string): Chunk {
    Chunk(s[..RunLength(s, false)], Value(HeadDigits(s)))
  }

  function AfterChunk(s: string): (t: string)
    ensures s != "" ==> |t| < |s|
  {
    var n := RunLength(s, false);
    var t := s[n..];
    var d := RunLength(t, true);
    assert n == 0 && s != "" ==> t[0] == s[0] && IsDigit(t[0]) && 0 < d;
    t[d..]
  }

  const PADDING := Chunk("", 0)

  function HeadOf(k: seq<Chunk>): Chunk {
    if k == [] then PADDING else k[0]
  }

  function CompareChunk(a: Chunk, b: Chunk): Ordering {
    CompareText(a.text, b.text).Then(CompareInt(a.number, b.number))
  }

  /** Lexicographic order of two keys, each padded with (empty, 0). */
  function CompareKeys(a: seq<Chunk>, b: seq<Chunk>): Ordering
    decreases |a| + |b|
  {
    if a == [] && b == [] then Equal
    else CompareChunk(HeadOf(a), HeadOf(b)).Then(CompareKeys(Tail(a), Tail(b)))
  }

  /** The order of version parts: the order of their canonical keys. */
  function PartOrder(a: string, b: string): Ordering {
    CompareKeys(Key(a), Key(b))
  }

  lemma CompareChunkTotal(a: Chunk, b: Chunk)
    ensures CompareChunk(b, a) == CompareChunk(a, b).Flip()
    ensures CompareChunk(a, b) == Equal <==> a == b
  {
    CompareTextTotal(a.text, b.text);
  }

  lemma CompareChunkChained(a: Chunk, b: Chunk, c: Chunk)
    ensures Chained(CompareChunk(a, b), CompareChunk(b, c), CompareChunk(a, c))
  {
    CompareTextChained(a.text, b.text, c.text);
  }

  /** The key without its trailing (empty, 0) chunks, which padding would supply. */
  function Trimmed(k: seq<Chunk>): (t: seq<Chunk>)
    ensures |t| <= |k|
  {
    if k == [] then []
    else
      var rest := Trimmed(k[1..]);
      if rest == [] && k[0] == PADDING then [] else [k[0]] + rest
  }

  lemma {:induction false} CompareKeysTotal(a: seq<Chunk>, b: seq<Chunk>)
    ensures CompareKeys(b, a) == CompareKeys(a, b).Flip()
    ensures CompareKeys(a, b) == Equal <==> Trimmed(a) == Trimmed(b)
    decreases |a| + |b|
  {
    if a != [] || b != [] {
      CompareChunkTotal(HeadOf(a), HeadOf(b));
      CompareKeysTotal(Tail(a), Tail(b));
      TrimmedStep(a);
      TrimmedStep(b);
    }
  }

  /** A trimmed key is decided by its padded head and its trimmed tail. */
  lemma TrimmedStep(k: seq<Chunk>)
    ensures Trimmed(k) == [] <==> HeadOf(k) == PADDING && Trimmed(Tail(k)) == []
    ensures Trimmed(k) != [] ==> Trimmed(k)[0] == HeadOf(k) && Trimmed(k)[1..] == Trimmed(Tail(k))
  {
  }

  lemma {:induction false} CompareKeysChained(a: seq<Chunk>, b: seq<Chunk>, c: seq<Chunk>)
    ensures Chained(CompareKeys(a, b), CompareKeys(b, c), CompareKeys(a, c))
    decreases |a| + |b| + |c|
  {
    if a != [] || b != [] || c != [] {
      CompareChunkChained(HeadOf(a), HeadOf(b), HeadOf(c));
      CompareChunkTotal(HeadOf(a), HeadOf(b));
      CompareKeysChained(Tail(a), Tail(b), Tail(c));
    }
  }

  // ----- The comparison loops -----

  /** The trimmed length first, then the digits: how the code compares numbers of any
      size without computing them. */
  function CompareNumeric(a: string, b: string): Ordering {
    var (ta, tb) := (SkipZeros(a), SkipZeros(b));
    CompareInt(|ta|, |tb|).Then(CompareStrings(ta, tb))
  }

  function SkipZeros(s: string): string {
    if s != "" && s[0] == '0' then SkipZeros(s[1..]) else s
  }

  lemma {:induction false} SkipZerosValue(s: string)
    requires AllDigits(s)
    ensures AllDigits(SkipZeros(s)) && Value(SkipZeros(s)) == Value(s)
    ensures SkipZeros(s) != "" ==> SkipZeros(s)[0] != '0'
  {
    if s != "" && s[0] == '0' {
      ValueFront(s);
      SkipZerosValue(s[1..]);
    }
  }

  /** Comparing lengths and then digits compares the numbers, whatever their size. */
  lemma CompareNumericIsValue(a: string, b: string)
    requires AllDigits(a) && AllDigits(b)
    ensures CompareNumeric(a, b) == CompareInt(Value(a), Value(b))
  {
    var (ta, tb) := (SkipZeros(a), SkipZeros(b));
    SkipZerosValue(a);
    SkipZerosValue(b);
    if |ta| < |tb| {
      LongerIsGreater(ta, tb);
    } else if |tb| < |ta| {
      LongerIsGreater(tb, ta);
    } else {
      SameLengthNumeric(ta, tb);
    }
  }

  lemma LongerIsGreater(short: string, long: string)
    requires AllDigits(short) && AllDigits(long) && |short| < |long| && long[0] != '0'
    ensures Value(short) < Value(long)
  {
    ValueBound(short);
    ValueBound(long);
    Power10Monotone(|short|, |long| - 1);
  }

  /** Character by character up to the longer run, stopping at the first difference. */
  method CompareNondigit(a: string, b: string) returns (o: Ordering)
    ensures o == CompareText(a, b)
  {
    var n := if |a| < |b| then |b| else |a|;
    for i := 0 to n
      invariant CompareText(a, b) == CompareText(Drop(a, i), Drop(b, i))
    {
      var ca := if i < |a| then Ordinal(a[i]) else 0;
      var cb := if i < |b| then Ordinal(b[i]) else 0;
      var ord := CompareInt(ca, cb);
      assert Tail(Drop(a, i)) == Drop(a, i + 1) && Tail(Drop(b, i)) == Drop(b, i + 1);
      if ord != Equal {
        return ord;
      }
    }
    return Equal;
  }

  function Drop<T>(s: seq<T>, n: nat): seq<T> {
    if n <= |s| then s[n..] else []
  }

  /** The alternating loop: a non-digit run, then a digit run, until both are used up. */
  method ComparePart(a0: string, b0: string) returns (o: Ordering)
    ensures o == PartOrder(a0, b0)
  {
    var a, b := a0, b0;
    while true
      invariant PartOrder(a0, b0) == PartOrder(a, b)
      decreases |a| + |b|
    {
      PartStep(a, b);
      var na, nb := RunLength(a, false), RunLength(b, false);
      var ord := CompareNondigit(a[..na], b[..nb]);
      if ord != Equal {
        return ord;
      }
      a, b := a[na..], b[nb..];
      var da, db := RunLength(a, true), RunLength(b, true);
      ord := CompareNumeric(a[..da], b[..db]);
      if ord != Equal {
        return ord;
      }
      a, b := a[da..], b[db..];
      if a == "" && b == "" {
        return Equal;
      }
    }
  }

  /** What one turn of the loop compares, and what is left for the next. */
  lemma PartStep(a: string, b: string)
    ensures
      var (na, nb) := (RunLength(a, false), RunLength(b, false));
      var (a', b') := (a[na..], b[nb..]);
      var (da, db) := (RunLength(a', true), RunLength(b', true));
      PartOrder(a, b) ==
        CompareText(a[..na], b[..nb])
          .Then(CompareNumeric(a'[..da], b'[..db]))
          .Then(PartOrder(a'[da..], b'[db..]))
  {
    ChunkStep(a, b);
    CompareNumericIsValue(HeadDigits(a), HeadDigits(b));
  }

  /** Two parts compare by their first chunks and then by what follows them. */
  lemma ChunkStep(a: string, b: string)
    ensures PartOrder(a, b) ==
      CompareChunk(HeadChunk(a), HeadChunk(b)).Then(PartOrder(AfterChunk(a), AfterChunk(b)))
  {
    KeyStep(a);
    KeyStep(b);
  }

  /** The padded head and tail of a key are the first chunk and the key of the rest,
      also past the end of the part. */
  lemma KeyStep(s: string)
    ensures Tail(Key(s)) == Key(AfterChunk(s))
    ensures HeadOf(Key(s)) == HeadChunk(s)
  {
  }

  // ----- Whole versions -----

  /** Rust's `parse::<u64>().unwrap_or(0)`. */
  function ParseEpoch(s: string): nat {
    var digits := if s != "" && s[0] == '+' then s[1..] else s;
    if digits != "" && AllDigits(digits) && Value(digits) < 0x1_0000_0000_0000_0000 then Value(digits) else 0
  }

  datatype Version = Version(epoch: nat, upstream: string, revision: string)

  function SplitVersion(v: string): Version {
    SplitTrimmed(Trim(v))
  }

  function SplitTrimmed(t: string): Version {
    var cut := Cut(t, ':');
    if cut.Some? then SplitRevision(ParseEpoch(cut.value.0), cut.value.1) else SplitRevision(0, t)
  }

  function SplitRevision(epoch: nat, rest: string): Version {
    var dash := FindLast(rest, '-');
    if dash >= 0 then Version(epoch, rest[..dash], rest[dash + 1..]) else Version(epoch, rest, "")
  }

  lemma {:induction false} LastAt(before: string, c: char, after: string)
    requires c !in after
    ensures FindLast(before + ([c] + after), c) == |before|
  {
    var s := before + ([c] + after);
    if after == "" {
      assert s[|s| - 1] == c;
    } else {
      var front, last := after[..|after| - 1], after[|after| - 1];
      assert last in after;
      assert s[..|s| - 1] == before + ([c] + front) && s[|s| - 1] == last;
      LastAt(before, c, front);
    }
  }

  function WithRevision(upstream: string, revision: Option<string>): string {
    if revision.Some? then upstream + (['-'] + revision.value) else upstream
  }

  function WithEpoch(epoch: Option<string>, rest: string): string {
    if epoch.Some? then epoch.value + ([':'] + rest) else rest
  }

  lemma RevisionCut(epoch: nat, upstream: string, revision: string)
    requires '-' !in revision
    ensures SplitRevision(epoch, upstream + (['-'] + revision)) == Version(epoch, upstream, revision)
  {
    var rest := upstream + (['-'] + revision);
    LastAt(upstream, '-', revision);
    Prefix(upstream, ['-'] + revision);
    assert rest[|upstream| + 1..] == revision;
  }

  lemma RevisionReads(epoch: nat, upstream: string, revision: Option<string>)
    requires '-' !in if revision.Some? then revision.value else upstream
    ensures SplitRevision(epoch, WithRevision(upstream, revision))
         == Version(epoch, upstream, if revision.Some? then revision.value else "")
  {
    if revision.Some? {
      RevisionCut(epoch, upstream, revision.value);
    }
  }

  lemma EpochReads(epoch: Option<string>, rest: string)
    requires ':' !in if epoch.Some? then epoch.value else rest
    ensures SplitTrimmed(WithEpoch(epoch, rest)) == SplitRevision(if epoch.Some? then ParseEpoch(epoch.value) else 0, rest)
  {
    if epoch.Some? {
      CutReads(epoch.value, ':', rest);
    } else {
      assert Find(rest, ':') == |rest|;
    }
  }

  /** A version written `[epoch:]upstream[-revision]` splits into what it was written from:
      the first colon ends the epoch and the last dash starts the revision. */
  lemma SplitVersionReads(epoch: Option<string>, upstream: string, revision: Option<string>)
    requires ':' !in if epoch.Some? then epoch.value else WithRevision(upstream, revision)
    requires '-' !in if revision.Some? then revision.value else upstream
    requires IsTrimmed(WithEpoch(epoch, WithRevision(upstream, revision)))
    ensures SplitVersion(WithEpoch(epoch, WithRevision(upstream, revision)))
         == Version(if epoch.Some? then ParseEpoch(epoch.value) else 0, upstream, if revision.Some? then revision.value else "")
  {
    TrimTrimmed(WithEpoch(epoch, WithRevision(upstream, revision)));
    EpochReads(epoch, WithRevision(upstream, revision));
    RevisionReads(if epoch.Some? then ParseEpoch(epoch.value) else 0, upstream, revision);
  }

  function VersionOrder(a: string, b: string): Ordering {
    SplitOrder(SplitVersion(a), SplitVersion(b))
  }

  /** Epoch, then upstream, then revision. */
  function SplitOrder(a: Version, b: Version): Ordering {
    CompareInt(a.epoch, b.epoch).Then(PartOrder(a.upstream, b.upstream)).Then(PartOrder(a.revision, b.revision))
  }

  method CompareVersions(a: string, b: string) returns (o: Ordering)
    ensures o == VersionOrder(a, b)
  {
    var va, vb := SplitVersion(a), SplitVersion(b);
    o := CompareInt(va.epoch, vb.epoch);
    if o == Equal {
      o := ComparePart(va.upstream, vb.upstream);
    }
    if o == Equal {
      o := ComparePart(va.revision, vb.revision);
    }
  }

  predicate SameKey(a: string, b: string) {
    Trimmed(Key(a)) == Trimmed(Key(b))
  }

  predicate SameSplit(a: Version, b: Version) {
    a.epoch == b.epoch && SameKey(a.upstream, b.upstream) && SameKey(a.revision, b.revision)
  }

  /** Two versions tie exactly when their epochs agree and their keys do. */
  predicate SameVersion(a: string, b: string) {
    SameSplit(SplitVersion(a), SplitVersion(b))
  }

  lemma PartOrderTotal(a: string, b: string)
    ensures PartOrder(b, a) == PartOrder(a, b).Flip()
    ensures PartOrder(a, b) == Equal <==> SameKey(a, b)
  {
    CompareKeysTotal(Key(a), Key(b));
  }

  lemma PartOrderChained(a: string, b: string, c: string)
    ensures Chained(PartOrder(a, b), PartOrder(b, c), PartOrder(a, c))
  {
    CompareKeysChained(Key(a), Key(b), Key(c));
  }

  lemma SplitOrderTotal(a: Version, b: Version)
    ensures SplitOrder(b, a) == SplitOrder(a, b).Flip()
    ensures SplitOrder(a, b) == Equal <==> SameSplit(a, b)
  {
    PartOrderTotal(a.upstream, b.upstream);
    PartOrderTotal(a.revision, b.revision);
  }

  lemma SplitOrderChained(a: Version, b: Version, c: Version)
    ensures Chained(SplitOrder(a, b), SplitOrder(b, c), SplitOrder(a, c))
  {
    PartOrderChained(a.upstream, b.upstream, c.upstream);
    PartOrderChained(a.revision, b.revision, c.revision);
    var (ab, bc, ac) := (CompareInt(a.epoch, b.epoch), CompareInt(b.epoch, c.epoch), CompareInt(a.epoch, c.epoch));
    var (ab', bc', ac') := (PartOrder(a.upstream, b.upstream), PartOrder(b.upstream, c.upstream), PartOrder(a.upstream, c.upstream));
    ThenChained(ab, bc, ac, ab', bc', ac');
    ThenChained(ab.Then(ab'), bc.Then(bc'), ac.Then(ac'),
                PartOrder(a.revision, b.revision), PartOrder(b.revision, c.revision), PartOrder(a.revision, c.revision));
  }

  /** Swapping the operands flips the answer, and a tie is equality of canonical keys. */
  lemma VersionOrderTotal(a: string, b: string)
    ensures VersionOrder(b, a) == VersionOrder(a, b).Flip()
    ensures VersionOrder(a, b) == Equal <==> SameVersion(a, b)
  {
    SplitOrderTotal(SplitVersion(a), SplitVersion(b));
  }

  /** Transitivity in every combination, with ties interchangeable. */
  lemma VersionOrderChained(a: string, b: string, c: string)
    ensures Chained(VersionOrder(a, b), VersionOrder(b, c), VersionOrder(a, c))
  {
    SplitOrderChained(SplitVersion(a), SplitVersion(b), SplitVersion(c));
  }

  // ----- The tilde rule -----

  /** How a part that starts with given runs is chunked. */
  lemma ChunkOf(text: string, digits: string, rest: string)
    requires forall i :: 0 <= i < |text| ==> !IsDigit(text[i])
    requires AllDigits(digits) && (digits == "" ==> rest == "")
    requires rest != "" ==> !IsDigit(rest[0])
    ensures HeadChunk(text + (digits + rest)) == Chunk(text, Value(digits))
    ensures AfterChunk(text + (digits + rest)) == rest
  {
    var s := text + (digits + rest);
    RunLengthIs(text, digits + rest, false);
    assert s[|text|..] == digits + rest && s[..|text|] == text;
    RunLengthIs(digits, rest, true);
    assert (digits + rest)[..|digits|] == digits && (digits + rest)[|digits|..] == rest;
  }

  lemma ChunkParts(s: string)
    ensures s == s[..RunLength(s, false)] + (HeadDigits(s) + AfterChunk(s))
    ensures AfterChunk(s) != "" ==> !IsDigit(AfterChunk(s)[0])
    ensures HeadDigits(s) == "" ==> AfterChunk(s) == ""
  {
    var t := s[RunLength(s, false)..];
    assert t == HeadDigits(s) + AfterChunk(s);
    assert s == s[..RunLength(s, false)] + t;
  }

  /** The tilde lengthens a part that is all non-digits. */
  lemma TildeInText(s: string, u: string)
    requires RunLength(s, false) == |s| && u != "" && u[0] == '~'
    ensures CompareChunk(HeadChunk(s + u), HeadChunk(s)) == Less
  {
    TildeRun(s, u);
    LongerText(s, (s + u)[..RunLength(s + u, false)]);
    assert s[..|s|] == s;
  }

  lemma TildeRun(s: string, u: string)
    requires RunLength(s, false) == |s| && u != "" && u[0] == '~'
    ensures
      var run := (s + u)[..RunLength(s + u, false)];
      |s| < |run| && run[..|s|] == s && run[|s|] == '~'
  {
    var ext := s + u;
    assert forall k :: 0 <= k < |s| ==> ext[k] == s[k];
    assert ext[|s|] == '~';
    assert |s| < RunLength(ext, false);
  }

  /** After a digit the tilde leaves the first chunk alone. */
  lemma TildeAfterChunk(s: string, u: string)
    requires RunLength(s, false) < |s| && u != "" && u[0] == '~'
    ensures HeadChunk(s + u) == HeadChunk(s)
    ensures AfterChunk(s + u) == AfterChunk(s) + u
  {
    var text, digits, after := s[..RunLength(s, false)], HeadDigits(s), AfterChunk(s);
    ChunkParts(s);
    ChunkOf(text, digits, after + u);
    Regroup(text, digits, after, u);
  }

  lemma Regroup(a: string, b: string, c: string, d: string)
    ensures a + (b + c) + d == a + (b + (c + d))
  {
  }

  lemma {:induction false} LongerText(s: string, run: string)
    requires |s| < |run| && run[..|s|] == s && run[|s|] == '~'
    ensures CompareText(run, s) == Less
  {
    if s != "" {
      assert run[0] == s[0] && run[1..][..|s| - 1] == s[1..];
      LongerText(s[1..], run[1..]);
    }
  }

  lemma {:induction false} TildeSuffixSortsBelow(s: string, u: string)
    requires u != "" && u[0] == '~'
    ensures PartOrder(s + u, s) == Less
    decreases |s|
  {
    ChunkStep(s + u, s);
    if RunLength(s, false) == |s| {
      TildeInText(s, u);
    } else {
      TildeAfterChunk(s, u);
      CompareChunkTotal(HeadChunk(s), HeadChunk(s));
      TildeSuffixSortsBelow(AfterChunk(s), u);
    }
  }

  /** A part extended by `~` and anything sorts before the part. */
  lemma TildeSortsBelow(s: string, t: string)
    ensures PartOrder(s + "~" + t, s) == Less
  {
    assert s + "~" + t == s + ("~" + t);
    TildeSuffixSortsBelow(s, "~" + t);
  }

  // ----- What decides -----

  /** The text of a version with an epoch, an upstream part and a revision. */
  datatype Written = Written(epoch: Option<string>, upstream: string, revision: Option<string>) {

    function Text(): string {
      WithEpoch(epoch, WithRevision(upstream, revision))
    }

    /** Whether the text splits where it was put together. */
    predicate Splits() {
      && ':' !in (if epoch.Some? then epoch.value else WithRevision(upstream, revision))
      && '-' !in (if revision.Some? then revision.value else upstream)
      && IsTrimmed(Text())
    }

    function EpochNumber(): nat {
      if epoch.Some? then ParseEpoch(epoch.value) else 0
    }

    function RevisionText(): string {
      if revision.Some? then revision.value else ""
    }
  }

  lemma WrittenReads(v: Written)
    requires v.Splits()
    ensures SplitVersion(v.Text()) == Version(v.EpochNumber(), v.upstream, v.RevisionText())
  {
    SplitVersionReads(v.epoch, v.upstream, v.revision);
  }

  lemma ThenDecides(m: nat, n: nat, upstream: Ordering, revision: Ordering)
    ensures
      var o := CompareInt(m, n).Then(upstream).Then(revision);
      && (m < n ==> o == Less) && (m > n ==> o == Greater)
      && (m == n ==> o == if upstream != Equal then upstream else revision)
  {
  }

  lemma SplitsDecide(a: string, b: string, m: nat, n: nat, t: string, u: string, r: string, s: string)
    requires SplitVersion(a) == Version(m, t, r) && SplitVersion(b) == Version(n, u, s)
    ensures m < n ==> VersionOrder(a, b) == Less
    ensures m > n ==> VersionOrder(a, b) == Greater
    ensures m == n ==> VersionOrder(a, b) == if PartOrder(t, u) != Equal then PartOrder(t, u) else PartOrder(r, s)
  {
    ThenDecides(m, n, PartOrder(t, u), PartOrder(r, s));
    assert VersionOrder(a, b) == CompareInt(m, n).Then(PartOrder(t, u)).Then(PartOrder(r, s));
  }

  /** The epoch decides whatever follows it, then the upstream part whatever follows that,
      and only a tie of both leaves the answer to the revision. */
  lemma EpochThenUpstreamThenRevision(a: Written, b: Written)
    requires a.Splits() && b.Splits()
    ensures a.EpochNumber() < b.EpochNumber() ==> VersionOrder(a.Text(), b.Text()) == Less
    ensures a.EpochNumber() > b.EpochNumber() ==> VersionOrder(a.Text(), b.Text()) == Greater
    ensures a.EpochNumber() == b.EpochNumber() ==>
              VersionOrder(a.Text(), b.Text()) ==
                if PartOrder(a.upstream, b.upstream) != Equal then PartOrder(a.upstream, b.upstream)
                else PartOrder(a.RevisionText(), b.RevisionText())
  {
    WrittenReads(a);
    WrittenReads(b);
    SplitsDecide(a.Text(), b.Text(), a.EpochNumber(), b.EpochNumber(), a.upstream, b.upstream, a.RevisionText(), b.RevisionText());
  }

  /** An epoch in decimal is its number where that fits the 64 bits, and zero where it does
      not or where the text is no number. */
  lemma EpochIsItsNumber(n: nat, width: nat, sign: string, s: string)
    requires sign == "" || sign == "+"
    requires s == Padded(n, width) && s != ""
    ensures ParseEpoch(sign + s) == if n <= 18446744073709551615 then n else 0
    ensures forall other: string :: other != "" && other != "+" && (other[0] != '+' && !IsDigit(other[0])) ==> ParseEpoch(other) == 0
  {
    assert IsDigit(s[0]);
    assert sign == "+" ==> (sign + s)[1..] == s;
    assert sign == "" ==> sign + s == s;
  }

  /** Two parts that agree up to where they differ are decided there: `~` below the end of
      the run, the end below letters, and so on by the ordinals. */
  lemma {:induction false} FirstDifferenceDecides(shared: string, a: string, b: string)
    requires HeadOrdinal(a) < HeadOrdinal(b)
    ensures CompareText(shared + a, shared + b) == Less
  {
    if shared == "" {
      assert shared + a == a && shared + b == b;
    } else {
      FirstDifferenceDecides(shared[1..], a, b);
      assert (shared + a)[1..] == shared[1..] + a && (shared + b)[1..] == shared[1..] + b;
    }
  }

  /** A part written as a run of non-digits, a run of digits and a rest. */
  datatype WrittenPart = WrittenPart(text: string, digits: string, rest: string) {

    function Text(): string {
      text + (digits + rest)
    }

    predicate Splits() {
      && (forall i :: 0 <= i < |text| ==> !IsDigit(text[i]))
      && AllDigits(digits) && (digits == "" ==> rest == "")
      && (rest != "" ==> !IsDigit(rest[0]))
    }
  }

  lemma TextDecides(text: Ordering, m: nat, n: nat, rest: Ordering)
    ensures
      var o := text.Then(CompareInt(m, n)).Then(rest);
      && (text != Equal ==> o == text)
      && (text == Equal ==> o == if m < n then Less else if m > n then Greater else rest)
  {
  }

  lemma ChunksDecide(s: string, t: string, a: Chunk, b: Chunk)
    requires HeadChunk(s) == a && HeadChunk(t) == b
    ensures CompareText(a.text, b.text) != Equal ==> PartOrder(s, t) == CompareText(a.text, b.text)
    ensures a.text == b.text && a.number < b.number ==> PartOrder(s, t) == Less
    ensures a.text == b.text && a.number > b.number ==> PartOrder(s, t) == Greater
    ensures a == b ==> PartOrder(s, t) == PartOrder(AfterChunk(s), AfterChunk(t))
  {
    ChunkStep(s, t);
    CompareTextTotal(a.text, b.text);
    TextDecides(CompareText(a.text, b.text), a.number, b.number, PartOrder(AfterChunk(s), AfterChunk(t)));
    assert CompareChunk(a, b) == CompareText(a.text, b.text).Then(CompareInt(a.number, b.number));
  }

  /** The texts of two parts decide, then their numbers, and then what follows. */
  lemma TextThenNumberThenRest(a: WrittenPart, b: WrittenPart)
    requires a.Splits() && b.Splits()
    ensures CompareText(a.text, b.text) != Equal ==> PartOrder(a.Text(), b.Text()) == CompareText(a.text, b.text)
    ensures a.text == b.text && Value(a.digits) < Value(b.digits) ==> PartOrder(a.Text(), b.Text()) == Less
    ensures a.text == b.text && Value(a.digits) > Value(b.digits) ==> PartOrder(a.Text(), b.Text()) == Greater
    ensures a.text == b.text && Value(a.digits) == Value(b.digits) ==> PartOrder(a.Text(), b.Text()) == PartOrder(a.rest, b.rest)
  {
    ChunkOf(a.text, a.digits, a.rest);
    ChunkOf(b.text, b.digits, b.rest);
    ChunksDecide(a.Text(), b.Text(), HeadChunk(a.Text()), HeadChunk(b.Text()));
  }
}
