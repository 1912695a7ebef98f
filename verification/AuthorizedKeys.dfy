/** The `authorized_keys` line check of crates/core/src/authkeys.rs: what it accepts is a
    line whose type name the key blob repeats. */
module AuthorizedKeys {
  import opened Base64
  import opened Text
  import opened Wrappers

  const KEY_TYPES: seq<string> := [
    "ssh-ed25519",
    "ssh-rsa",
    "ecdsa-sha2-nistp256",
    "ecdsa-sha2-nistp384",
    "ecdsa-sha2-nistp521",
    "sk-ssh-ed25519@openssh.com",
    "sk-ecdsa-sha2-nistp256@openssh.com"
  ]

  const PRIVATE := "PRIVATE"
  const KEY := "KEY"

  /** Why a line is refused, in the order the checks are made. */
  datatype Refusal =
    | PrivateKey | NewLine | Blank | OuterSpace | OptionsPrefix | NoBlob | UnknownType
    | NotBase64 | NoTypeInBlob | OtherTypeInBlob | ControlInComment

  /** Rust's `char::is_control` below U+0100. */
  predicate IsControl(c: char) {
    c as int < 32 || 127 <= c as int < 160
  }

  // ----- The fields of a line -----

  datatype Fields = Fields(keyType: string, blob: string, comment: Option<string>)

  /** Text up to a space, and what follows it when there is one. */
  function CutAtSpace(s: string): (string, Option<string>) {
    var i := Find(s, ' ');
    if i == |s| then (s, None) else (s[..i], Some(s[i + 1..]))
  }

  /** The inverse of cutting. */
  function Spaced(head: string, rest: Option<string>): string {
    if rest.Some? then head + " " + rest.value else head
  }

  /** `splitn(3, ' ')`, with a missing second field as the empty one. */
  function SplitFields(entry: string): Fields {
    var (keyType, rest) := CutAtSpace(entry);
    if rest.None? then Fields(keyType, "", None)
    else
      var (blob, comment) := CutAtSpace(rest.value);
      Fields(keyType, blob, comment)
  }

  function JoinFields(f: Fields): string {
    Spaced(f.keyType, Some(Spaced(f.blob, f.comment)))
  }

  lemma CutSpaced(head: string, rest: Option<string>)
    requires ' ' !in head
    ensures CutAtSpace(Spaced(head, rest)) == (head, rest)
  {
    if rest.Some? {
      FindAfter(head, ' ', rest.value);
      Prefix(head + " ", rest.value);
      Prefix(head, " " + rest.value);
      assert head + " " + rest.value == head + (" " + rest.value);
    } else {
      assert Find(head, ' ') == |head|;
    }
  }

  lemma SpacedCut(s: string)
    ensures Spaced(CutAtSpace(s).0, CutAtSpace(s).1) == s && ' ' !in CutAtSpace(s).0
  {
  }

  lemma SplitJoined(f: Fields)
    requires ' ' !in f.keyType && ' ' !in f.blob
    ensures SplitFields(JoinFields(f)) == f
  {
    CutSpaced(f.keyType, Some(Spaced(f.blob, f.comment)));
    CutSpaced(f.blob, f.comment);
  }

  lemma JoinSplitFields(entry: string)
    requires SplitFields(entry).blob != ""
    ensures JoinFields(SplitFields(entry)) == entry
    ensures ' ' !in SplitFields(entry).keyType && ' ' !in SplitFields(entry).blob
  {
    SpacedCut(entry);
    SpacedCut(CutAtSpace(entry).1.value);
  }

  // ----- The type name inside a blob -----

  function AsBytes(s: string): (b: seq<byte>)
    requires forall i :: 0 <= i < |s| ==> s[i] as int < 128
    ensures |b| == |s|
  {
    seq(|s|, i requires 0 <= i < |s| => s[i] as int)
  }

  /** A 32-bit big-endian length and that many bytes, the length from 1 to 64. */
  function EmbeddedType(decoded: seq<byte>): Option<seq<byte>> {
    if |decoded| < 4 then None
    else
      var len: nat := Shift(decoded[0], 16777216) + Shift(decoded[1], 65536) + Shift(decoded[2], 256) + Shift(decoded[3], 1);
      if len == 0 || len > 64 || 4 + len > |decoded| then None else Some(decoded[4..4 + len])
  }

  function Shift(b: byte, weight: nat): nat {
    var n: nat := b;
    n * weight
  }

  /** Section 5 of RFC 4251: the length-prefixed string of a type name. */
  function Wire(name: seq<byte>): seq<byte>
    requires |name| < 256
  {
    var len: byte := |name|;
    [0, 0, 0, len] + name
  }

  lemma EmbeddedInWire(name: seq<byte>, tail: seq<byte>)
    requires 1 <= |name| <= 64
    ensures EmbeddedType(Wire(name) + tail) == Some(name)
  {
    var d := Wire(name) + tail;
    assert d[0] == 0 && d[1] == 0 && d[2] == 0 && d[3] == |name|;
    assert d[4..4 + |name|] == name;
  }

  /** The bytes of a type name stand at the front of a blob exactly when it starts with the
      name as it is written on the wire. */
  lemma EmbeddedExactlyInWire(decoded: seq<byte>, name: seq<byte>)
    ensures EmbeddedType(decoded) == Some(name)
       <==> 1 <= |name| <= 64 && exists tail :: decoded == Wire(name) + tail
  {
    if EmbeddedType(decoded) == Some(name) {
      LengthBytes(decoded[0], decoded[1], decoded[2], decoded[3]);
      assert decoded == [decoded[0], decoded[1], decoded[2], decoded[3]] + name + decoded[4 + |name|..];
      assert decoded == Wire(name) + decoded[4 + |name|..];
    }
    if tail :| 1 <= |name| <= 64 && decoded == Wire(name) + tail {
      EmbeddedInWire(name, tail);
    }
  }

  lemma LengthBytes(a: byte, b: byte, c: byte, d: byte)
    requires Shift(a, 16777216) + Shift(b, 65536) + Shift(c, 256) + Shift(d, 1) <= 64
    ensures a == 0 && b == 0 && c == 0 && Shift(d, 1) == d
  {
  }

  // ----- The check -----

  predicate IsKeyType(s: string) {
    s in KEY_TYPES
  }

  predicate WordChar(c: char) {
    'a' <= c <= 'z' || IsDigit(c) || c == '-' || c == '@' || c == '.'
  }

  predicate Word(s: string) {
    7 <= |s| <= 34 && forall i :: 0 <= i < |s| ==> WordChar(s[i])
  }

  lemma PlainTypes()
    ensures Word("ssh-ed25519") && Word("ssh-rsa")
    ensures Word("ecdsa-sha2-nistp256") && Word("ecdsa-sha2-nistp384") && Word("ecdsa-sha2-nistp521")
  {
  }

  lemma SecurityKeyTypes()
    ensures Word("sk-ssh-ed25519@openssh.com") && Word("sk-ecdsa-sha2-nistp256@openssh.com")
  {
  }

  /** The listed types are plain words of 7 to 34 characters. */
  lemma KeyTypeIsWord(t: string)
    requires IsKeyType(t)
    ensures Word(t)
  {
    PlainTypes();
    SecurityKeyTypes();
  }

  predicate HasControl(comment: Option<string>) {
    comment.Some? && exists i :: 0 <= i < |comment.value| && IsControl(comment.value[i])
  }

  /** The checks in order; None is acceptance. */
  function Check(entry: string): Option<Refusal> {
    if Contains(entry, PRIVATE + " " + KEY) then Some(PrivateKey)
    else if '\n' in entry || '\r' in entry then Some(NewLine)
    else if Trim(entry) == "" then Some(Blank)
    else if entry != Trim(entry) then Some(OuterSpace)
    else CheckFields(SplitFields(entry))
  }

  function CheckFields(f: Fields): Option<Refusal> {
    if f.blob == "" then
      (if '=' in f.keyType || ',' in f.keyType then Some(OptionsPrefix) else Some(NoBlob))
    else if !IsKeyType(f.keyType) then Some(UnknownType)
    else
      match CheckBlob(f.blob, f.keyType)
      case Some(refusal) => Some(refusal)
      case None => if HasControl(f.comment) then Some(ControlInComment) else None
  }

  function CheckBlob(blob: string, keyType: string): Option<Refusal>
    requires IsKeyType(keyType)
  {
    KeyTypeIsWord(keyType);
    match Decode(blob)
    case None => Some(NotBase64)
    case Some(decoded) =>
      if decoded == [] then Some(NotBase64)
      else
        match EmbeddedType(decoded)
        case None => Some(NoTypeInBlob)
        case Some(embedded) => if embedded != AsBytes(keyType) then Some(OtherTypeInBlob) else None
  }

  // ----- What acceptance means -----

  /** The blob decodes to bytes that begin with the type's own name. */
  predicate Repeats(blob: string, keyType: string)
    requires Word(keyType)
  {
    Decode(blob).Some? && EmbeddedType(Decode(blob).value) == Some(AsBytes(keyType))
  }

  /** The three fields of an entry that names a key. */
  predicate NamesKey(f: Fields) {
    && ' ' !in f.keyType && ' ' !in f.blob && f.blob != ""
    && IsKeyType(f.keyType) && Word(f.keyType) && Repeats(f.blob, f.keyType)
    && !HasControl(f.comment)
  }

  /** One line, trimmed, with something on it. */
  predicate OneTrimmedLine(entry: string) {
    '\n' !in entry && '\r' !in entry && IsTrimmed(entry) && entry != ""
  }

  lemma CheckBlobMeans(blob: string, keyType: string)
    requires IsKeyType(keyType)
    ensures Word(keyType) && (CheckBlob(blob, keyType).None? <==> Repeats(blob, keyType))
  {
    KeyTypeIsWord(keyType);
  }

  lemma CheckFieldsMeans(f: Fields)
    requires ' ' !in f.keyType && ' ' !in f.blob
    ensures CheckFields(f).None? <==> NamesKey(f)
  {
    if IsKeyType(f.keyType) {
      CheckBlobMeans(f.blob, f.keyType);
    }
  }

  lemma TrimDecides(entry: string)
    ensures Trim(entry) != "" && entry == Trim(entry) <==> IsTrimmed(entry) && entry != ""
  {
    TrimIsTrimmed(entry);
    if IsTrimmed(entry) {
      TrimTrimmed(entry);
    }
  }

  /** An accepted entry is one trimmed line of a listed type, a blob that repeats the type
      and a printable comment, and does not spell out a private key. */
  lemma AcceptedMeans(entry: string)
    requires Check(entry).None?
    ensures OneTrimmedLine(entry) && !Contains(entry, PRIVATE + " " + KEY)
    ensures entry == JoinFields(SplitFields(entry)) && NamesKey(SplitFields(entry))
  {
    TrimDecides(entry);
    JoinSplitFields(entry);
    CheckFieldsMeans(SplitFields(entry));
  }

  /** The blob repeats its type exactly when on the wire it starts with it. */
  lemma RepeatsMeans(blob: string, keyType: string)
    requires Word(keyType)
    ensures Repeats(blob, keyType)
       <==> Decode(blob).Some? && exists tail :: Decode(blob).value == Wire(AsBytes(keyType)) + tail
  {
    if Decode(blob).Some? {
      EmbeddedExactlyInWire(Decode(blob).value, AsBytes(keyType));
    }
  }

  /** The types of a key that sshd takes, listed one by one. */
  lemma ListedTypes(t: string)
    ensures IsKeyType(t) <==>
      || t == "ssh-ed25519" || t == "ssh-rsa"
      || t == "ecdsa-sha2-nistp256" || t == "ecdsa-sha2-nistp384" || t == "ecdsa-sha2-nistp521"
      || t == "sk-ssh-ed25519@openssh.com" || t == "sk-ecdsa-sha2-nistp256@openssh.com"
  {
    var types := KEY_TYPES;
    assert types[0] == "ssh-ed25519" && types[1] == "ssh-rsa" && types[2] == "ecdsa-sha2-nistp256";
    assert types[3] == "ecdsa-sha2-nistp384" && types[4] == "ecdsa-sha2-nistp521";
    assert types[5] == "sk-ssh-ed25519@openssh.com" && types[6] == "sk-ecdsa-sha2-nistp256@openssh.com";
  }

  /** What each refusal is found for, in the entry or in its fields. */
  predicate Shows(entry: string, refusal: Refusal) {
    match refusal
    case PrivateKey => Contains(entry, PRIVATE + " " + KEY)
    case NewLine => '\n' in entry || '\r' in entry
    case Blank => Trim(entry) == ""
    case OuterSpace => Trim(entry) != entry
    case _ => FieldsShow(SplitFields(entry), refusal)
  }

  predicate FieldsShow(f: Fields, refusal: Refusal) {
    match refusal
    case OptionsPrefix => f.blob == "" && ('=' in f.keyType || ',' in f.keyType)
    case NoBlob => f.blob == "" && '=' !in f.keyType && ',' !in f.keyType
    case UnknownType => f.blob != "" && !IsKeyType(f.keyType)
    case NotBase64 => f.blob != "" && BlobShows(f.blob, f.keyType, refusal)
    case NoTypeInBlob => BlobShows(f.blob, f.keyType, refusal)
    case OtherTypeInBlob => BlobShows(f.blob, f.keyType, refusal)
    case ControlInComment => HasControl(f.comment)
    case _ => false
  }

  predicate BlobShows(blob: string, keyType: string, refusal: Refusal) {
    match refusal
    case NotBase64 => Decode(blob).None? || Decode(blob).value == []
    case NoTypeInBlob => Decode(blob).Some? && EmbeddedType(Decode(blob).value).None?
    case OtherTypeInBlob => Decode(blob).Some? && Word(keyType) && EmbeddedType(Decode(blob).value) != Some(AsBytes(keyType))
    case _ => false
  }

  lemma BlobRefusalShows(blob: string, keyType: string)
    requires IsKeyType(keyType) && CheckBlob(blob, keyType).Some?
    ensures BlobShows(blob, keyType, CheckBlob(blob, keyType).value)
  {
    KeyTypeIsWord(keyType);
  }

  lemma FieldsRefusalShows(f: Fields)
    requires CheckFields(f).Some?
    ensures FieldsShow(f, CheckFields(f).value)
  {
    if f.blob != "" && IsKeyType(f.keyType) && CheckBlob(f.blob, f.keyType).Some? {
      BlobRefusalShows(f.blob, f.keyType);
    }
  }

  /** An entry is refused for something it shows. */
  lemma RefusalShows(entry: string)
    requires Check(entry).Some?
    ensures Shows(entry, Check(entry).value)
  {
    if CheckFields(SplitFields(entry)).Some? {
      FieldsRefusalShows(SplitFields(entry));
    }
  }

  /** Every such line is accepted. */
  lemma NamedKeyAccepted(f: Fields)
    requires NamesKey(f) && OneTrimmedLine(JoinFields(f))
    ensures Check(JoinFields(f)).None? <==> !Contains(JoinFields(f), PRIVATE + " " + KEY)
  {
    TrimDecides(JoinFields(f));
    SplitJoined(f);
    CheckFieldsMeans(f);
  }

  // ----- Lines as a key generator writes them -----

  /** A type, the blob that repeats it and goes on, and a comment. */
  function KeyLine(t: string, tail: seq<byte>, comment: Option<string>): Fields
    requires Word(t)
  {
    Fields(t, Encode(Wire(AsBytes(t)) + tail), comment)
  }

  predicate Printable(comment: Option<string>) {
    !HasControl(comment) && (comment.Some? ==> comment.value != "" && IsTrimmed(comment.value))
  }

  predicate BlobChar(c: char) {
    InAlphabet(c) || c == '='
  }

  lemma EncodedChars(bytes: seq<byte>)
    requires bytes != []
    ensures Encode(bytes) != "" && forall i :: 0 <= i < |Encode(bytes)| ==> BlobChar(Encode(bytes)[i])
  {
    EncodeIsPadded(bytes);
    UnpaddedIsAlphabet(bytes);
    UnpaddedNonempty(bytes);
  }

  lemma KeyLineNamesKey(t: string, tail: seq<byte>, comment: Option<string>)
    requires IsKeyType(t) && Word(t) && Printable(comment)
    ensures NamesKey(KeyLine(t, tail, comment))
  {
    var bytes := Wire(AsBytes(t)) + tail;
    EncodedChars(bytes);
    DecodeEncode(bytes);
    EmbeddedInWire(AsBytes(t), tail);
  }

  /** The text of a line: type, space, blob, and the comment after another space. */
  lemma LineText(f: Fields)
    ensures JoinFields(f) == f.keyType + " " + f.blob + if f.comment.Some? then " " + f.comment.value else ""
  {
    if f.comment.Some? {
      Associative(f.keyType + " ", f.blob, " " + f.comment.value);
      Associative(f.blob, " ", f.comment.value);
    } else {
      assert f.keyType + " " + f.blob + "" == f.keyType + " " + f.blob;
    }
  }

  lemma KeyLineIsOneLine(f: Fields)
    requires Word(f.keyType) && f.blob != "" && Printable(f.comment)
    requires forall i :: 0 <= i < |f.blob| ==> BlobChar(f.blob[i])
    ensures OneTrimmedLine(JoinFields(f))
  {
    LineText(f);
    var s := JoinFields(f);
    assert s[0] == f.keyType[0];
    if f.comment.Some? {
      assert s[|s| - 1] == f.comment.value[|f.comment.value| - 1];
      NoNewlineIn(f.comment.value);
    } else {
      assert s[|s| - 1] == f.blob[|f.blob| - 1];
    }
    NoNewlineInFields(f);
  }

  lemma NoNewlineIn(s: string)
    requires forall i :: 0 <= i < |s| ==> !IsControl(s[i])
    ensures '\n' !in s && '\r' !in s
  {
  }

  lemma NoNewlineInFields(f: Fields)
    requires Word(f.keyType) && Printable(f.comment)
    requires forall i :: 0 <= i < |f.blob| ==> BlobChar(f.blob[i])
    ensures '\n' !in JoinFields(f) && '\r' !in JoinFields(f)
  {
    NoNewlineIn(f.keyType);
    NoNewlineIn(f.blob);
    NoNewlineIn(" ");
    if f.comment.Some? {
      NoNewlineIn(f.comment.value);
    }
  }

  // ----- Where "PRIVATE KEY" can turn up in such a line -----

  const PATTERN := PRIVATE + " " + KEY

  lemma PatternFacts()
    ensures |PATTERN| == 11 && PATTERN[7] == ' ' && PATTERN[6] == 'E'
    ensures PATTERN[..7] == PRIVATE && PATTERN[8..] == KEY
    ensures forall i :: 0 <= i < 7 ==> PATTERN[i] != ' '
  {
    assert PATTERN == "PRIVATE KEY";
  }

  /** An occurrence puts its space where the text has one, and its words around it. */
  lemma OccurrenceSpace(s: string, i: nat)
    requires OccursAt(s, PATTERN, i)
    ensures i + 11 <= |s| && s[i + 7] == ' ' && s[i + 6] == 'E'
    ensures forall k :: i <= k < i + 7 ==> s[k] != ' '
    ensures s[i..i + 7] == PRIVATE && s[i + 8..i + 11] == KEY
  {
    PatternFacts();
    var w := s[i..i + 11];
    assert forall k :: 0 <= k < 11 ==> w[k] == s[i + k];
    assert w[..7] == s[i..i + 7] && w[8..] == s[i + 8..i + 11];
  }

  /** Whether the blob ends in the first word and the comment starts with the second. */
  predicate AcrossBoundary(f: Fields)
    requires f.comment.Some?
  {
    EndsWith(f.blob, PRIVATE) && StartsWith(f.comment.value, KEY)
  }

  /** Where the spaces of a line are, and that its first word does not end in `E`. */
  lemma SpacesOfLine(f: Fields)
    requires Word(f.keyType) && ' ' !in f.blob
    ensures
      var s := JoinFields(f);
      && |f.keyType| + 1 + |f.blob| <= |s|
      && s[|f.keyType| - 1] != 'E'
      && forall k :: 0 <= k < |s| && s[k] == ' ' ==>
           k == |f.keyType| || (f.comment.Some? && |f.keyType| + 1 + |f.blob| <= k)
  {
    LineText(f);
    var s := JoinFields(f);
    var n := |f.keyType| + 1;
    assert forall k :: 0 <= k < |f.keyType| ==> s[k] == f.keyType[k];
    assert forall k :: n <= k < n + |f.blob| ==> s[k] == f.blob[k - n];
  }

  /** The parts of a line with a comment. */
  lemma CommentOfLine(f: Fields)
    requires f.comment.Some?
    ensures
      var s := JoinFields(f);
      var m := |f.keyType| + 1 + |f.blob|;
      && |s| == m + 1 + |f.comment.value| && s[m + 1..] == f.comment.value
      && s[|f.keyType| + 1..m] == f.blob && s[m] == ' ' && s[|f.keyType|] == ' '
  {
    LineText(f);
  }

  /** An occurrence is inside the comment or across the space in front of it. */
  lemma OccurrenceInLine(f: Fields, i: nat)
    requires Word(f.keyType) && ' ' !in f.blob && OccursAt(JoinFields(f), PATTERN, i)
    ensures f.comment.Some? && (AcrossBoundary(f) || Contains(f.comment.value, PATTERN))
  {
    var s := JoinFields(f);
    OccurrenceSpace(s, i);
    SpacesOfLine(f);
    CommentOfLine(f);
    var m := |f.keyType| + 1 + |f.blob|;
    if i + 7 == m {
      Across(f, i);
    } else {
      assert m < i;
      InComment(f, i);
    }
  }

  lemma Across(f: Fields, i: nat)
    requires Word(f.keyType) && f.comment.Some? && OccursAt(JoinFields(f), PATTERN, i)
    requires i + 7 == |f.keyType| + 1 + |f.blob|
    ensures AcrossBoundary(f)
  {
    var s := JoinFields(f);
    OccurrenceSpace(s, i);
    CommentOfLine(f);
    assert |f.keyType| < i;
    assert f.blob[|f.blob| - 7..] == s[i..i + 7];
    assert f.comment.value[..3] == s[i + 8..i + 11];
  }

  lemma InComment(f: Fields, i: nat)
    requires f.comment.Some? && |f.keyType| + 1 + |f.blob| < i && OccursAt(JoinFields(f), PATTERN, i)
    ensures Contains(f.comment.value, PATTERN)
  {
    CommentOfLine(f);
    var (s, m) := (JoinFields(f), |f.keyType| + 1 + |f.blob|);
    var j := i - m - 1;
    assert s[m + 1..][j..j + |PATTERN|] == s[i..i + |PATTERN|];
    assert OccursAt(f.comment.value, PATTERN, j);
  }

  lemma AcrossOccurs(f: Fields)
    requires f.comment.Some? && (AcrossBoundary(f) || Contains(f.comment.value, PATTERN))
    ensures Contains(JoinFields(f), PATTERN)
  {
    CommentOfLine(f);
    PatternFacts();
    var (s, m) := (JoinFields(f), |f.keyType| + 1 + |f.blob|);
    if AcrossBoundary(f) {
      BoundaryOccurs(s, m, f.blob, f.comment.value);
    } else {
      var j :| 0 <= j <= |f.comment.value| && OccursAt(f.comment.value, PATTERN, j);
      assert s[m + 1 + j..m + 1 + j + 11] == f.comment.value[j..j + 11];
      assert OccursAt(s, PATTERN, m + 1 + j);
    }
  }

  lemma AroundOne(s: string, i: nat, m: nat, end: nat)
    requires i <= m < end <= |s|
    ensures s[i..end] == s[i..m] + [s[m]] + s[m + 1..end]
  {
  }

  /** A marker made of the end of a blob, a space and the start of a comment. */
  lemma BoundaryOccurs(s: string, m: nat, blob: string, comment: string)
    requires |blob| <= m < |s| && s[m - |blob|..m] == blob && s[m] == ' ' && s[m + 1..] == comment
    requires EndsWith(blob, PRIVATE) && StartsWith(comment, KEY)
    ensures Contains(s, PATTERN)
  {
    PatternFacts();
    var i := m - 7;
    assert s[i..m] == blob[|blob| - 7..] == PRIVATE;
    assert s[m + 1..m + 4] == comment[..3] == KEY;
    AroundOne(s, i, m, m + 4);
    assert OccursAt(s, PATTERN, i);
  }

  /** A line built from a listed type, a blob that repeats it, and a trimmed printable
      comment is accepted, unless the comment spells out a private key or completes one
      that the blob ends in. Without a comment it is always accepted. */
  lemma KeyLineAccepted(t: string, tail: seq<byte>, comment: Option<string>)
    requires IsKeyType(t) && Word(t) && Printable(comment)
    ensures
      var f := KeyLine(t, tail, comment);
      Check(JoinFields(f)).None? <==>
        (comment.Some? ==> !AcrossBoundary(f) && !Contains(comment.value, PATTERN))
  {
    var f := KeyLine(t, tail, comment);
    EncodedChars(Wire(AsBytes(t)) + tail);
    KeyLineNamesKey(t, tail, comment);
    KeyLineIsOneLine(f);
    NamedKeyAccepted(f);
    if Contains(JoinFields(f), PATTERN) {
      var i :| 0 <= i <= |JoinFields(f)| && OccursAt(JoinFields(f), PATTERN, i);
      OccurrenceInLine(f, i);
    }
    if comment.Some? && (AcrossBoundary(f) || Contains(comment.value, PATTERN)) {
      AcrossOccurs(f);
    }
  }

  lemma WordIsAlphabet()
    ensures AllAlphabet("APRIVATE") && EndsWith("APRIVATE", PRIVATE)
  {
    assert "APRIVATE"[1..] == PRIVATE;
  }

  lemma EndOfConcat(a: string, b: string, end: string)
    requires EndsWith(b, end)
    ensures EndsWith(a + b, end)
  {
    assert (a + b)[|a + b| - |end|..] == b[|b| - |end|..];
  }

  lemma ThreeTimes(s: seq<byte>)
    ensures |s + (s + s)| % 3 == 0
  {
    assert |s + (s + s)| == 3 * |s|;
  }

  lemma BlobEndsIn(wire: seq<byte>, word: seq<byte>, text: string)
    requires Encode(word) == text && EndsWith(text, PRIVATE)
    ensures EndsWith(Encode(wire + (wire + wire + word)), PRIVATE)
  {
    var whole := wire + (wire + wire);
    ThreeTimes(wire);
    Associative(wire, wire + wire, word);
    EncodeConcat(whole, word);
    EndOfConcat(Encode(whole), text, PRIVATE);
  }

  lemma KeyIsPrintable()
    ensures Printable(Some(KEY)) && StartsWith(KEY, KEY)
  {
    assert IsTrimmed(KEY) && !HasControl(Some(KEY));
  }

  lemma RefusedAcross(f: Fields)
    requires f.comment.Some? && AcrossBoundary(f)
    ensures Check(JoinFields(f)) == Some(PrivateKey)
  {
    AcrossOccurs(f);
  }

  /** The boundary case is real: for every key type there is a blob that repeats it and ends
      in the first word of the marker, so that a comment of the second completes it. */
  lemma BoundaryIsMet(t: string) returns (tail: seq<byte>)
    requires IsKeyType(t) && Word(t)
    ensures AcrossBoundary(KeyLine(t, tail, Some(KEY))) && Printable(Some(KEY))
    ensures Check(JoinFields(KeyLine(t, tail, Some(KEY)))) == Some(PrivateKey)
  {
    var wire := Wire(AsBytes(t));
    WordIsAlphabet();
    var word := WholeTextIsEncoding("APRIVATE");
    tail := wire + wire + word;
    BlobEndsIn(wire, word, "APRIVATE");
    KeyIsPrintable();
    RefusedAcross(KeyLine(t, tail, Some(KEY)));
  }
}
