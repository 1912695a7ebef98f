/** Standard base64, crates/core/src/base64.rs, against section 4 of RFC 4648. */
module Base64 {
  import opened Text
  import opened Wrappers

  type sextet = n: int | 0 <= n < 64

  // ----- The alphabet -----

  /** Table 1 of RFC 4648: capitals, small letters, digits, plus and slash. */
  function Letter(v: sextet): char {
    if v < 26 then ('A' as int + v) as char
    else if v < 52 then ('a' as int + v - 26) as char
    else if v < 62 then ('0' as int + v - 52) as char
    else if v == 62 then '+'
    else '/'
  }

  predicate InAlphabet(c: char) {
    'A' <= c <= 'Z' || 'a' <= c <= 'z' || '0' <= c <= '9' || c == '+' || c == '/'
  }

  function Sextet(c: char): (v: sextet)
    requires InAlphabet(c)
  {
    if 'A' <= c <= 'Z' then c as int - 'A' as int
    else if 'a' <= c <= 'z' then c as int - 'a' as int + 26
    else if '0' <= c <= '9' then c as int - '0' as int + 52
    else if c == '+' then 62
    else 63
  }

  lemma LetterSextet(v: sextet)
    ensures InAlphabet(Letter(v)) && Sextet(Letter(v)) == v
  {
  }

  lemma SextetLetter(c: char)
    requires InAlphabet(c)
    ensures Letter(Sextet(c)) == c
  {
  }

  // ----- Groups of 24 bits -----

  /** Byte `i` of a group, absent ones as zero. */
  function ByteAt(g: seq<byte>, i: nat): byte {
    if i < |g| then g[i] else 0
  }

  /** The group as one 24-bit number, left-aligned. */
  function Bits(g: seq<byte>): nat {
    65536 * ByteAt(g, 0) + 256 * ByteAt(g, 1) + ByteAt(g, 2)
  }

  function SextetAt(bits: nat, i: nat): sextet
    requires i < 4
  {
    (if i == 0 then bits / 262144 else if i == 1 then bits / 4096 else if i == 2 then bits / 64 else bits) % 64
  }

  /** One more character than bytes, then padding to four. */
  function EncodeGroup(g: seq<byte>): (s: string)
    requires 1 <= |g| <= 3
    ensures |s| == 4
  {
    var bits := Bits(g);
    [Letter(SextetAt(bits, 0)), Letter(SextetAt(bits, 1)),
     if 2 <= |g| then Letter(SextetAt(bits, 2)) else '=',
     if 3 <= |g| then Letter(SextetAt(bits, 3)) else '=']
  }

  function Encode(bytes: seq<byte>): string {
    if bytes == [] then ""
    else if |bytes| <= 3 then EncodeGroup(bytes)
    else EncodeGroup(bytes[..3]) + Encode(bytes[3..])
  }

  /** Sextet of character `i` of a group, absent ones as zero. */
  function SextetOf(g: string, i: nat): sextet
    requires forall k :: 0 <= k < |g| ==> InAlphabet(g[k])
  {
    if i < |g| then Sextet(g[i]) else 0
  }

  function GroupBits(g: string): nat
    requires forall k :: 0 <= k < |g| ==> InAlphabet(g[k])
  {
    262144 * SextetOf(g, 0) + 4096 * SextetOf(g, 1) + 64 * SextetOf(g, 2) + SextetOf(g, 3)
  }

  /** The bytes that a group's characters fill, one fewer than there are characters. */
  function DecodeGroup(g: string): Option<seq<byte>>
    requires 1 <= |g| <= 4
  {
    if |g| == 1 || exists k :: 0 <= k < |g| && !InAlphabet(g[k]) then None
    else
      var bits := GroupBits(g);
      Some([bits / 65536 % 256, bits / 256 % 256, bits % 256][..|g| - 1])
  }

  function DecodeBody(body: string): Option<seq<byte>> {
    if body == "" then Some([])
    else if |body| <= 4 then DecodeGroup(body)
    else
      match (DecodeGroup(body[..4]), DecodeBody(body[4..]))
      case (Some(first), Some(rest)) => Some(first + rest)
      case _ => None
  }

  /** How many `=` the text ends in. */
  function Pads(s: string): (n: nat)
    ensures n <= |s|
    ensures forall k :: |s| - n <= k < |s| ==> s[k] == '='
    ensures n < |s| ==> s[|s| - n - 1] != '='
  {
    if s != "" && s[|s| - 1] == '=' then 1 + Pads(s[..|s| - 1]) else 0
  }

  /** The text before the padding. */
  function Body(s: string): string {
    s[..|s| - Pads(s)]
  }

  function Decode(s: string): Option<seq<byte>> {
    if Pads(s) > 2 || |s| % 4 != 0 then None else DecodeBody(Body(s))
  }

  // ----- The loops -----

  method EncodeBytes(bytes: seq<byte>) returns (out: string)
    ensures out == Encode(bytes)
  {
    out := "";
    var i := 0;
    while i < |bytes|
      invariant 0 <= i <= |bytes|
      invariant out + Encode(bytes[i..]) == Encode(bytes)
    {
      var end := if i + 3 <= |bytes| then i + 3 else |bytes|;
      var group := EncodeChunk(bytes[i..end]);
      EncodeStep(bytes, i, end);
      Associative(out, EncodeGroup(bytes[i..end]), Encode(bytes[end..]));
      out := out + group;
      i := end;
    }
    assert Encode([]) == "" && bytes[|bytes|..] == [] && out + "" == out;
  }

  lemma EncodeStep(bytes: seq<byte>, i: nat, end: nat)
    requires i < |bytes| && end == if i + 3 <= |bytes| then i + 3 else |bytes|
    ensures Encode(bytes[i..]) == EncodeGroup(bytes[i..end]) + Encode(bytes[end..])
  {
    if i + 3 < |bytes| {
      assert bytes[i..][..3] == bytes[i..end] && bytes[i..][3..] == bytes[end..];
    } else {
      assert bytes[i..end] == bytes[i..] && bytes[end..] == [];
      assert EncodeGroup(bytes[i..]) + "" == EncodeGroup(bytes[i..]);
    }
  }

  /** One group: the fold, the characters, and the padding. */
  method EncodeChunk(g: seq<byte>) returns (s: string)
    requires 1 <= |g| <= 3
    ensures s == EncodeGroup(g)
  {
    var acc: nat := 0;
    for i := 0 to |g|
      invariant acc == Bits(g[..i])
    {
      BitsStep(g, i);
      acc := acc + Shifted(g[i], i);
    }
    assert g[..|g|] == g;
    s := "";
    for i := 0 to |g| + 1
      invariant s == EncodeGroup(g)[..i]
    {
      FrontOfTake(EncodeGroup(g), i);
      assert EncodeGroup(g)[i] == Letter(SextetAt(acc, i));
      s := s + [Letter(SextetAt(acc, i))];
    }
    for i := |g| to 3
      invariant s == EncodeGroup(g)[..i + 1]
    {
      assert EncodeGroup(g)[i + 1] == '=';
      s := s + "=";
    }
  }

  /** A byte shifted to where position `i` of a group stands in the 24 bits. */
  function Shifted(b: byte, i: nat): nat {
    var n: nat := b;
    n * (if i == 0 then 65536 else if i == 1 then 256 else 1)
  }

  lemma BitsStep(g: seq<byte>, i: nat)
    requires i < |g| <= 3
    ensures Bits(g[..i + 1]) == Bits(g[..i]) + Shifted(g[i], i)
  {
    assert forall k :: 0 <= k < i ==> g[..i + 1][k] == g[..i][k];
  }

  method DecodeText(s: string) returns (r: Option<seq<byte>>)
    ensures r == Decode(s)
  {
    var pad := Pads(s);
    if pad > 2 || |s| % 4 != 0 {
      return None;
    }
    r := DecodeGroups(s[..|s| - pad]);
  }

  method DecodeGroups(body: string) returns (r: Option<seq<byte>>)
    ensures r == DecodeBody(body)
  {
    var out: seq<byte> := [];
    var i := 0;
    assert body[0..] == body;
    ExtendByNothing(DecodeBody(body));
    while i < |body|
      invariant 0 <= i <= |body|
      invariant DecodeBody(body) == Extend(out, DecodeBody(body[i..]))
    {
      var end := if i + 4 <= |body| then i + 4 else |body|;
      DecodeStep(body, i, end);
      var group := DecodeChunk(body[i..end]);
      if group.None? {
        return None;
      }
      ExtendTwice(out, group.value, DecodeBody(body[end..]));
      out := out + group.value;
      i := end;
    }
    assert body[|body|..] == "" && out + [] == out;
    return Some(out);
  }

  lemma ExtendByNothing(rest: Option<seq<byte>>)
    ensures Extend([], rest) == rest
  {
    if rest.Some? {
      assert [] + rest.value == rest.value;
    }
  }

  function Extend(front: seq<byte>, rest: Option<seq<byte>>): Option<seq<byte>> {
    if rest.Some? then Some(front + rest.value) else None
  }

  lemma ExtendTwice(a: seq<byte>, b: seq<byte>, rest: Option<seq<byte>>)
    ensures Extend(a, Extend(b, rest)) == Extend(a + b, rest)
  {
    if rest.Some? {
      Associative(a, b, rest.value);
    }
  }

  lemma DecodeStep(body: string, i: nat, end: nat)
    requires i < |body| && end == if i + 4 <= |body| then i + 4 else |body|
    ensures DecodeBody(body[i..]) ==
      match DecodeGroup(body[i..end]) case None => None case Some(first) => Extend(first, DecodeBody(body[end..]))
  {
    if i + 4 < |body| {
      assert body[i..][..4] == body[i..end] && body[i..][4..] == body[end..];
    } else {
      assert body[i..end] == body[i..] && body[end..] == "";
      if DecodeGroup(body[i..]).Some? {
        assert DecodeGroup(body[i..]).value + [] == DecodeGroup(body[i..]).value;
      }
    }
  }

  /** One group: the sextets shifted in, the sum left-aligned, and its leading bytes. */
  method DecodeChunk(g: string) returns (r: Option<seq<byte>>)
    requires 1 <= |g| <= 4
    ensures r == DecodeGroup(g)
  {
    if |g| == 1 {
      return None;
    }
    var acc: nat := 0;
    for i := 0 to |g|
      invariant forall k :: 0 <= k < i ==> InAlphabet(g[k])
      invariant acc == ShiftedIn(g[..i])
    {
      if !InAlphabet(g[i]) {
        return None;
      }
      assert g[..i + 1][..i] == g[..i];
      acc := 64 * acc + Sextet(g[i]);
    }
    assert g[..|g|] == g;
    acc := acc * (if |g| == 4 then 1 else if |g| == 3 then 64 else 4096);
    LeftAligned(g);
    return Some([acc / 65536 % 256, acc / 256 % 256, acc % 256][..|g| - 1]);
  }

  function ShiftedIn(g: string): nat
    requires forall k :: 0 <= k < |g| ==> InAlphabet(g[k])
  {
    if g == "" then 0 else 64 * ShiftedIn(g[..|g| - 1]) + Sextet(g[|g| - 1])
  }

  lemma LeftAligned(g: string)
    requires 2 <= |g| <= 4 && forall k :: 0 <= k < |g| ==> InAlphabet(g[k])
    ensures ShiftedIn(g) * (if |g| == 4 then 1 else if |g| == 3 then 64 else 4096) == GroupBits(g)
  {
    assert g[..2][..1] == g[..1] && g[..1][..0] == "";
    assert ShiftedIn(g[..1]) == Sextet(g[0]);
    assert ShiftedIn(g[..2]) == 64 * Sextet(g[0]) + Sextet(g[1]);
    if |g| >= 3 {
      assert g[..3][..2] == g[..2];
      assert ShiftedIn(g[..3]) == 64 * ShiftedIn(g[..2]) + Sextet(g[2]);
      if |g| == 4 {
        assert g == g[..4] && g[..4][..3] == g[..3];
      } else {
        assert g == g[..3];
      }
    } else {
      assert g == g[..2];
    }
  }

  // ----- One group round trip -----

  /** The characters of an encoded group before its padding. */
  lemma EncodedGroup(g: seq<byte>)
    requires 1 <= |g| <= 3
    ensures
      var s := EncodeGroup(g);
      && (forall k :: 0 <= k <= |g| ==> InAlphabet(s[k]) && Sextet(s[k]) == SextetAt(Bits(g), k))
      && (forall k :: |g| < k < 4 ==> s[k] == '=')
  {
    forall k | 0 <= k <= |g| ensures InAlphabet(EncodeGroup(g)[k]) && Sextet(EncodeGroup(g)[k]) == SextetAt(Bits(g), k) {
      LetterSextet(SextetAt(Bits(g), k));
    }
  }

  /** Sextets the group does not print are zero bits. */
  lemma UnprintedBits(g: seq<byte>)
    requires 1 <= |g| <= 3
    ensures |g| == 1 ==> SextetAt(Bits(g), 2) == 0 && SextetAt(Bits(g), 3) == 0
    ensures |g| == 2 ==> SextetAt(Bits(g), 3) == 0
  {
  }

  lemma SextetsOfBits(bits: nat)
    requires bits < 16777216
    ensures bits == 262144 * SextetAt(bits, 0) + 4096 * SextetAt(bits, 1) + 64 * SextetAt(bits, 2) + SextetAt(bits, 3)
  {
    assert bits / 64 == 64 * (bits / 4096) + bits / 64 % 64;
    assert bits / 4096 == 64 * (bits / 262144) + bits / 4096 % 64;
  }

  lemma BytesOfBits(g: seq<byte>)
    requires 1 <= |g| <= 3
    ensures Bits(g) < 16777216
    ensures [Bits(g) / 65536 % 256, Bits(g) / 256 % 256, Bits(g) % 256][..|g|] == g
  {
    var a: int, b: int := ByteAt(g, 0), ByteAt(g, 1);
    var bits := Bits(g);
    assert bits / 256 == 256 * a + b;
    assert bits / 65536 == a;
  }

  lemma GroupRoundTrip(g: seq<byte>)
    requires 1 <= |g| <= 3
    ensures DecodeGroup(EncodeGroup(g)[..|g| + 1]) == Some(g)
  {
    var s := EncodeGroup(g)[..|g| + 1];
    EncodedGroup(g);
    assert forall k :: 0 <= k < |s| ==> s[k] == EncodeGroup(g)[k];
    BytesOfBits(g);
    UnprintedBits(g);
    SextetsOfBits(Bits(g));
    assert GroupBits(s) == Bits(g);
  }

  // ----- Every byte sequence survives -----

  /** The encoding without its padding. */
  function Unpadded(bytes: seq<byte>): string {
    if bytes == [] then ""
    else if |bytes| <= 3 then EncodeGroup(bytes)[..|bytes| + 1]
    else EncodeGroup(bytes[..3]) + Unpadded(bytes[3..])
  }

  function Padding(count: nat): string {
    if count % 3 == 1 then "==" else if count % 3 == 2 then "=" else ""
  }

  predicate AllAlphabet(s: string) {
    forall k :: 0 <= k < |s| ==> InAlphabet(s[k])
  }

  lemma GroupPadding(g: seq<byte>)
    requires 1 <= |g| <= 3
    ensures EncodeGroup(g) == EncodeGroup(g)[..|g| + 1] + Padding(|g|)
    ensures AllAlphabet(EncodeGroup(g)[..|g| + 1])
  {
    EncodedGroup(g);
  }

  lemma {:induction false} EncodeIsPadded(bytes: seq<byte>)
    ensures Encode(bytes) == Unpadded(bytes) + Padding(|bytes|)
  {
    if 0 < |bytes| <= 3 {
      GroupPadding(bytes);
    } else if bytes != [] {
      EncodeIsPadded(bytes[3..]);
      Associative(EncodeGroup(bytes[..3]), Unpadded(bytes[3..]), Padding(|bytes| - 3));
      SamePadding(|bytes|);
    }
  }

  lemma SamePadding(n: nat)
    requires 3 < n
    ensures Padding(n) == Padding(n - 3)
  {
  }

  lemma {:induction false} EncodeIsWhole(bytes: seq<byte>)
    ensures |Encode(bytes)| % 4 == 0
  {
    if 3 < |bytes| {
      EncodeIsWhole(bytes[3..]);
      FourMore(|Encode(bytes[3..])|);
    }
  }

  lemma FourMore(n: int)
    ensures (n + 4) % 4 == n % 4
  {
  }

  lemma {:induction false} UnpaddedIsAlphabet(bytes: seq<byte>)
    ensures AllAlphabet(Unpadded(bytes))
  {
    if 0 < |bytes| <= 3 {
      GroupPadding(bytes);
    } else if bytes != [] {
      GroupPadding(bytes[..3]);
      UnpaddedIsAlphabet(bytes[3..]);
      assert EncodeGroup(bytes[..3])[..4] == EncodeGroup(bytes[..3]);
    }
  }

  /** The padding is all the trailing `=` after text of the alphabet. */
  lemma {:induction false} PadsOf(body: string, pads: string)
    requires AllAlphabet(body) && forall k :: 0 <= k < |pads| ==> pads[k] == '='
    ensures Pads(body + pads) == |pads|
  {
    if pads == "" {
      assert body + pads == body;
      assert body != "" ==> InAlphabet(body[|body| - 1]);
    } else {
      PadsOf(body, pads[..|pads| - 1]);
      assert (body + pads)[..|body + pads| - 1] == body + pads[..|pads| - 1];
    }
  }

  lemma {:induction false} BodyRoundTrip(bytes: seq<byte>)
    ensures DecodeBody(Unpadded(bytes)) == Some(bytes)
  {
    if 0 < |bytes| <= 3 {
      GroupRoundTrip(bytes);
    } else if bytes != [] {
      var first, rest := EncodeGroup(bytes[..3]), Unpadded(bytes[3..]);
      GroupRoundTrip(bytes[..3]);
      BodyRoundTrip(bytes[3..]);
      assert first[..4] == first;
      UnpaddedNonempty(bytes[3..]);
      Prefix(first, rest);
      assert bytes[..3] + bytes[3..] == bytes;
    }
  }

  lemma UnpaddedNonempty(bytes: seq<byte>)
    requires bytes != []
    ensures Unpadded(bytes) != ""
  {
  }

  /** Decoding undoes encoding, for every byte sequence. */
  lemma DecodeEncode(bytes: seq<byte>)
    ensures Decode(Encode(bytes)) == Some(bytes)
  {
    var body, pads := Unpadded(bytes), Padding(|bytes|);
    EncodeIsPadded(bytes);
    EncodeIsWhole(bytes);
    UnpaddedIsAlphabet(bytes);
    PadsOf(body, pads);
    Prefix(body, pads);
    BodyRoundTrip(bytes);
  }

  // ----- What decodes -----

  /** Section 4 of RFC 4648: whole groups of four, of which the last may end in one or
      two padding characters. */
  predicate InGrammar(s: string) {
    && |s| % 4 == 0
    && exists n :: 0 <= n <= 2 && n <= |s| && PaddedBy(s, n)
  }

  predicate PaddedBy(s: string, n: nat)
    requires n <= |s|
  {
    AllAlphabet(s[..|s| - n]) && forall k :: |s| - n <= k < |s| ==> s[k] == '='
  }

  lemma DecodeGroupWhen(g: string)
    requires 1 <= |g| <= 4
    ensures DecodeGroup(g).Some? <==> AllAlphabet(g) && |g| != 1
  {
  }

  lemma AlphabetSplit(s: string, i: nat)
    requires i <= |s|
    ensures AllAlphabet(s) <==> AllAlphabet(s[..i]) && AllAlphabet(s[i..])
  {
    assert s == s[..i] + s[i..];
  }

  lemma {:induction false} DecodeBodyWhen(body: string)
    ensures DecodeBody(body).Some? <==> AllAlphabet(body) && |body| % 4 != 1
  {
    if 0 < |body| <= 4 {
      DecodeGroupWhen(body);
    } else if body != "" {
      DecodeGroupWhen(body[..4]);
      DecodeBodyWhen(body[4..]);
      AlphabetSplit(body, 4);
      FourMore(|body[4..]|);
    }
  }

  /** Once the padding is off, no group of one character is left to meet. */
  lemma NoLoneCharacter(s: string)
    requires Pads(s) <= 2 && |s| % 4 == 0
    ensures |Body(s)| % 4 != 1
  {
    LessPads(|s|, Pads(s));
  }

  lemma DecodedIsInGrammar(s: string)
    requires Decode(s).Some?
    ensures InGrammar(s)
  {
    DecodeBodyWhen(Body(s));
    assert PaddedBy(s, Pads(s));
  }

  /** Decoding succeeds on exactly the texts of the grammar. */
  lemma DecodesExactlyTheGrammar(s: string)
    ensures Decode(s).Some? <==> InGrammar(s)
  {
    if InGrammar(s) {
      GrammarPads(s);
      NoLoneCharacter(s);
      DecodeBodyWhen(Body(s));
    }
    if Decode(s).Some? {
      DecodedIsInGrammar(s);
    }
  }

  lemma LessPads(n: nat, pads: nat)
    requires n % 4 == 0 && pads <= 2
    ensures (n - pads) % 4 == if pads == 0 then 0 else 4 - pads
  {
  }

  lemma GrammarPads(s: string)
    requires InGrammar(s)
    ensures Pads(s) <= 2 && PaddedBy(s, Pads(s))
  {
    var n: nat :| n <= 2 && n <= |s| && PaddedBy(s, n);
    assert s == s[..|s| - n] + s[|s| - n..];
    PadsOf(s[..|s| - n], s[|s| - n..]);
  }

  // ----- What encodes back -----

  /** Section 3.5 of RFC 4648: the bits of the last character that no byte uses. */
  predicate UnusedBitsZero(g: string)
    requires 2 <= |g| <= 4 && AllAlphabet(g)
  {
    && (|g| == 3 ==> Sextet(g[2]) % 4 == 0)
    && (|g| == 2 ==> Sextet(g[1]) % 16 == 0)
  }

  lemma GroupEncodesBack(g: string)
    requires 2 <= |g| <= 4 && AllAlphabet(g)
    ensures DecodeGroup(g).Some?
    ensures EncodeGroup(DecodeGroup(g).value)[..|g|] == g <==> UnusedBitsZero(g)
  {
    var d := DecodeGroup(g).value;
    EncodedGroup(d);
    DecodedBits(g);
    forall k | 0 <= k < |g| ensures EncodeGroup(d)[k] == g[k] <==> SextetAt(Bits(d), k) == Sextet(g[k]) {
      SextetLetter(g[k]);
      SextetLetter(EncodeGroup(d)[k]);
    }
  }

  /** The bits a group's bytes keep: all but the unused ones. */
  function KeptBits(g: string): nat
    requires 2 <= |g| <= 4 && AllAlphabet(g)
  {
    Packed(SextetOf(g, 0), SecondKept(g), ThirdKept(g), SextetOf(g, 3))
  }

  function Packed(a: int, b: int, c: int, e: int): (bits: int)
    ensures 0 <= a && 0 <= b && 0 <= c && 0 <= e ==> 0 <= bits
  {
    262144 * a + 4096 * b + 64 * c + e
  }

  function SecondKept(g: string): (b: int)
    requires 2 <= |g| <= 4 && AllAlphabet(g)
    ensures 0 <= b < 64
  {
    var b: int := SextetOf(g, 1);
    if |g| == 2 then b / 16 * 16 else b
  }

  function ThirdKept(g: string): (c: int)
    requires 2 <= |g| <= 4 && AllAlphabet(g)
    ensures 0 <= c < 64
  {
    var c: int := SextetOf(g, 2);
    if |g| == 3 then c / 4 * 4 else c
  }

  lemma DecodedIsKept(g: string)
    requires 2 <= |g| <= 4 && AllAlphabet(g)
    ensures Bits(DecodeGroup(g).value) == KeptBits(g)
  {
    var a: int, b: int, c: int, e: int := SextetOf(g, 0), SextetOf(g, 1), SextetOf(g, 2), SextetOf(g, 3);
    BytesOfSextets(a, b, c, e);
  }

  /** The bytes of a group keep its bits but the unused ones. */
  lemma DecodedBits(g: string)
    requires 2 <= |g| <= 4 && AllAlphabet(g)
    ensures
      var d := Bits(DecodeGroup(g).value);
      && SextetAt(d, 0) == Sextet(g[0])
      && SextetAt(d, 1) == (if |g| == 2 then Sextet(g[1]) / 16 * 16 else Sextet(g[1]))
      && (3 <= |g| ==> SextetAt(d, 2) == if |g| == 3 then Sextet(g[2]) / 4 * 4 else Sextet(g[2]))
      && (4 == |g| ==> SextetAt(d, 3) == Sextet(g[3]))
  {
    DecodedIsKept(g);
    SextetsAre(SextetOf(g, 0), SecondKept(g), ThirdKept(g), SextetOf(g, 3));
  }

  lemma BytesOfSextets(a: int, b: int, c: int, e: int)
    requires 0 <= a < 64 && 0 <= b < 64 && 0 <= c < 64 && 0 <= e < 64
    ensures
      var bits := 262144 * a + 4096 * b + 64 * c + e;
      && bits / 65536 % 256 == 4 * a + b / 16
      && bits / 256 % 256 == 16 * (b % 16) + c / 4
      && bits % 256 == 64 * (c % 4) + e
  {
    var bits := 262144 * a + 4096 * b + 64 * c + e;
    assert bits / 65536 == 4 * a + b / 16;
    assert bits / 256 == 1024 * a + 16 * b + c / 4;
    assert bits == 256 * (1024 * a + 16 * b + c / 4) + 64 * (c % 4) + e;
  }

  lemma SextetsAre(a: int, b: int, c: int, e: int)
    requires 0 <= a < 64 && 0 <= b < 64 && 0 <= c < 64 && 0 <= e < 64
    ensures
      var bits := Packed(a, b, c, e);
      SextetAt(bits, 0) == a && SextetAt(bits, 1) == b && SextetAt(bits, 2) == c && SextetAt(bits, 3) == e
  {
    var bits := 262144 * a + 4096 * b + 64 * c + e;
    assert bits / 262144 == a;
    assert bits / 4096 == 64 * a + b;
    assert bits / 64 == 4096 * a + 64 * b + c;
  }

  /** The last group of the text before its padding. */
  function LastGroup(body: string): (g: string)
    requires AllAlphabet(body)
    ensures AllAlphabet(g) && |g| <= 4 && |g| % 4 == |body| % 4
    ensures g == "" <==> body == ""
  {
    if |body| <= 4 then body
    else
      FourMore(|body[4..]|);
      LastGroup(body[4..])
  }

  predicate BodyBitsZero(body: string)
    requires AllAlphabet(body) && |body| % 4 != 1
  {
    body == "" || UnusedBitsZero(LastGroup(body))
  }

  lemma {:induction false} DecodedLength(body: string)
    requires DecodeBody(body).Some?
    ensures |DecodeBody(body).value| % 3 == (if |body| % 4 == 0 then 0 else |body| % 4 - 1)
    ensures DecodeBody(body).value == [] <==> body == ""
  {
    if 0 < |body| <= 4 {
      DecodeGroupWhen(body);
    } else if body != "" {
      DecodeGroupWhen(body[..4]);
      DecodedLength(body[4..]);
      FourMore(|body[4..]|);
      ThreeMore(|DecodeBody(body[4..]).value|);
    }
  }

  lemma ThreeMore(n: int)
    ensures (n + 3) % 3 == n % 3
  {
  }

  lemma {:induction false} BodyEncodesBack(body: string)
    requires AllAlphabet(body) && |body| % 4 != 1
    ensures DecodeBody(body).Some?
    ensures Unpadded(DecodeBody(body).value) == body <==> BodyBitsZero(body)
  {
    DecodeBodyWhen(body);
    if 0 < |body| <= 4 {
      GroupEncodesBack(body);
    } else if body != "" {
      FourMore(|body[4..]|);
      var g, rest := body[..4], body[4..];
      GroupEncodesBack(g);
      BodyEncodesBack(rest);
      DecodedLength(rest);
      var d, ds := DecodeGroup(g).value, DecodeBody(rest).value;
      UnpaddedCons(d, ds);
      SameTail(EncodeGroup(d), Unpadded(ds), g, rest);
      assert EncodeGroup(d)[..4] == EncodeGroup(d);
      assert body == g + rest;
    }
  }

  lemma UnpaddedCons(d: seq<byte>, ds: seq<byte>)
    requires |d| == 3 && ds != []
    ensures Unpadded(d + ds) == EncodeGroup(d) + Unpadded(ds)
  {
    Prefix(d, ds);
  }

  lemma SameTail(a: string, x: string, b: string, y: string)
    requires |a| == |b|
    ensures a + x == b + y <==> a == b && x == y
  {
    Prefix(a, x);
    Prefix(b, y);
  }

  lemma GrammarBody(s: string)
    requires InGrammar(s)
    ensures Pads(s) <= 2 && |s| % 4 == 0 && AllAlphabet(Body(s)) && |Body(s)| % 4 != 1
    ensures Decode(s) == DecodeBody(Body(s)) && Decode(s).Some?
  {
    DecodesExactlyTheGrammar(s);
    GrammarPads(s);
    NoLoneCharacter(s);
  }

  /** Encoding a decoded text gives the text back exactly when its unused bits are zero. */
  lemma EncodeDecode(s: string)
    requires InGrammar(s)
    ensures Decode(s).Some? && AllAlphabet(Body(s)) && |Body(s)| % 4 != 1
    ensures Encode(Decode(s).value) == s <==> BodyBitsZero(Body(s))
  {
    GrammarBody(s);
    var d := DecodeBody(Body(s)).value;
    BodyEncodesBack(Body(s));
    DecodedLength(Body(s));
    EncodeIsPadded(d);
    SplitAtPads(s, |d|);
    SameEnd(Unpadded(d), Body(s), Padding(|d|));
  }

  lemma SplitAtPads(s: string, count: nat)
    requires Pads(s) <= 2 && |s| % 4 == 0
    requires count % 3 == if (|s| - Pads(s)) % 4 == 0 then 0 else (|s| - Pads(s)) % 4 - 1
    ensures s == Body(s) + Padding(count)
  {
    LessPads(|s|, Pads(s));
    PaddingLength(count, Pads(s));
    EndsInPads(s, Padding(count));
  }

  lemma PaddingLength(count: nat, pads: nat)
    requires pads <= 2 && count % 3 == if pads == 0 then 0 else 3 - pads
    ensures |Padding(count)| == pads && forall k :: 0 <= k < pads ==> Padding(count)[k] == '='
  {
  }

  lemma EndsInPads(s: string, pads: string)
    requires |pads| == Pads(s) && forall k :: 0 <= k < |pads| ==> pads[k] == '='
    ensures s == s[..|s| - Pads(s)] + pads
  {
  }

  lemma SameEnd(a: string, b: string, end: string)
    ensures a + end == b + end <==> a == b
  {
    if a + end == b + end {
      assert |a| == |b|;
      Prefix(a, end);
      Prefix(b, end);
    }
  }

  // ----- Texts that are encodings -----

  /** Whole groups of bytes encode on their own. */
  lemma {:induction false} EncodeConcat(a: seq<byte>, b: seq<byte>)
    requires |a| % 3 == 0
    ensures Encode(a + b) == Encode(a) + Encode(b)
  {
    if a == [] {
      assert a + b == b;
    } else {
      WholeGroups(|a|);
      var first, rest := a[..3], a[3..];
      assert (a + b)[..3] == first && (a + b)[3..] == rest + b;
      EncodeConcat(rest, b);
      FirstGroup(a);
      FirstGroup(a + b);
      Associative(EncodeGroup(first), Encode(rest), Encode(b));
    }
  }

  lemma WholeGroups(n: nat)
    requires n % 3 == 0 && n > 0
    ensures n >= 3 && (n - 3) % 3 == 0
  {
  }

  lemma FirstGroup(bytes: seq<byte>)
    requires |bytes| >= 3
    ensures Encode(bytes) == EncodeGroup(bytes[..3]) + Encode(bytes[3..])
  {
    if |bytes| == 3 {
      assert bytes[..3] == bytes && bytes[3..] == [];
      assert EncodeGroup(bytes) + "" == EncodeGroup(bytes);
    }
  }

  /** Every text of whole groups of the alphabet is an encoding. */
  lemma WholeTextIsEncoding(s: string) returns (bytes: seq<byte>)
    requires s != "" && |s| % 4 == 0 && AllAlphabet(s)
    ensures Encode(bytes) == s
  {
    assert PaddedBy(s, 0) by {
      assert s[..|s| - 0] == s;
    }
    assert InGrammar(s);
    assert Pads(s) == 0 by {
      assert InAlphabet(s[|s| - 1]);
    }
    assert Body(s) == s;
    EncodeDecode(s);
    bytes := Decode(s).value;
  }

  // ----- Known encodings -----

  lemma GroupOfThree(a: byte, b: byte, c: byte, w: sextet, x: sextet, y: sextet, z: sextet)
    requires 65536 * a + 256 * b + c == Packed(w, x, y, z)
    ensures Encode([a, b, c]) == [Letter(w), Letter(x), Letter(y), Letter(z)]
  {
    var g := [a, b, c];
    SextetsAre(w, x, y, z);
    assert Bits(g) == Packed(w, x, y, z);
  }

  /** Encodings of section 10 of RFC 4648, and one of the last two letters of the alphabet. */
  lemma KnownEncodings()
    ensures Encode([102, 111, 111]) == "Zm9v"
    ensures Encode([98, 97, 114]) == "YmFy"
    ensures Encode([251, 239, 255]) == "++//"
  {
    GroupOfThree(102, 111, 111, 25, 38, 61, 47);
    GroupOfThree(98, 97, 114, 24, 38, 5, 50);
    GroupOfThree(251, 239, 255, 62, 62, 63, 63);
  }
}
