/** The rules every produced package is held to, crates/core/src/debcheck.rs. The wording
    of a finding is not part of it. */
module PackageRules {
  import opened Lists
  import opened Text
  import opened Wrappers

  datatype Arch = Arm64 | Armv7 | Riscv64

  function DebianArch(arch: Arch): string {
    match arch
    case Arm64 => "arm64"
    case Armv7 => "armhf"
    case Riscv64 => "riscv64"
  }

  // ----- ELF identity -----

  datatype ElfIdent = ElfIdent(wide: bool, machine: nat)

  const ELF_IDENT_LEN := 20

  const ELF_MAGIC: seq<byte> := [0x7f, 0x45, 0x4c, 0x46]

  function Halfword(low: int, high: int): (n: int)
    ensures 0 <= low && 0 <= high ==> 0 <= n
  {
    low + 256 * high
  }

  function IdentifyElf(prefix: seq<byte>): Option<ElfIdent> {
    if |prefix| < ELF_IDENT_LEN || prefix[..4] != ELF_MAGIC then None
    else if prefix[4] != 1 && prefix[4] != 2 then None
    else if prefix[5] == 1 then Some(ElfIdent(prefix[4] == 2, Halfword(prefix[18], prefix[19])))
    else if prefix[5] == 2 then Some(ElfIdent(prefix[4] == 2, Halfword(prefix[19], prefix[18])))
    else None
  }

  function TargetElf(arch: Arch): ElfIdent {
    match arch
    case Arm64 => ElfIdent(true, 183)
    case Armv7 => ElfIdent(false, 40)
    case Riscv64 => ElfIdent(true, 243)
  }

  /** An identification block: class, byte order, twelve bytes that the rules do not read,
      and the machine in that byte order. */
  function ElfHeader(ident: ElfIdent, littleEndian: bool, between: seq<byte>): seq<byte>
    requires ident.machine < 0x1_0000
  {
    var low: byte := ident.machine % 256;
    var high: byte := ident.machine / 256;
    ELF_MAGIC + [if ident.wide then 2 else 1, if littleEndian then 1 else 2] + between
    + (if littleEndian then [low, high] else [high, low])
  }

  /** The identity a header was written with is the one read, in either byte order, and
      nothing but such a header is identified. */
  lemma IdentifiesExactlyHeaders(prefix: seq<byte>, ident: ElfIdent)
    ensures IdentifyElf(prefix) == Some(ident) <==>
            && ident.machine < 0x1_0000
            && exists littleEndian: bool, between: seq<byte>, rest: seq<byte> ::
                 |between| == 12 && prefix == ElfHeader(ident, littleEndian, between) + rest
  {
    if IdentifyElf(prefix) == Some(ident) {
      var (a, b) := (prefix[18], prefix[19]);
      var littleEndian := prefix[5] == 1;
      MachineBytes(a, b);
      MachineBytes(b, a);
      HeaderParts(prefix, ident, littleEndian);
    }
    if littleEndian: bool, between: seq<byte>, rest: seq<byte> :|
      ident.machine < 0x1_0000 && |between| == 12 && prefix == ElfHeader(ident, littleEndian, between) + rest
    {
      HeaderRead(ident, littleEndian, between, rest);
    }
  }

  lemma MachineBytes(low: byte, high: byte)
    ensures Halfword(low, high) % 256 == low && Halfword(low, high) / 256 == high && Halfword(low, high) < 0x1_0000
  {
  }

  lemma HeaderParts(prefix: seq<byte>, ident: ElfIdent, littleEndian: bool)
    requires IdentifyElf(prefix) == Some(ident) && littleEndian == (prefix[5] == 1) && ident.machine < 0x1_0000
    requires ident.machine % 256 == (if littleEndian then prefix[18] else prefix[19])
    requires ident.machine / 256 == (if littleEndian then prefix[19] else prefix[18])
    ensures exists between: seq<byte>, rest: seq<byte> ::
              |between| == 12 && prefix == ElfHeader(ident, littleEndian, between) + rest
  {
    var between, rest := prefix[6..18], prefix[20..];
    assert prefix == prefix[..4] + [prefix[4], prefix[5]] + between + [prefix[18], prefix[19]] + rest;
    assert prefix == ElfHeader(ident, littleEndian, between) + rest;
  }

  lemma HeaderRead(ident: ElfIdent, littleEndian: bool, between: seq<byte>, rest: seq<byte>)
    requires ident.machine < 0x1_0000 && |between| == 12
    ensures IdentifyElf(ElfHeader(ident, littleEndian, between) + rest) == Some(ident)
  {
    var prefix := ElfHeader(ident, littleEndian, between) + rest;
    assert prefix[..4] == ELF_MAGIC;
    assert prefix[18] == ElfHeader(ident, littleEndian, between)[18];
    assert prefix[19] == ElfHeader(ident, littleEndian, between)[19];
  }

  // ----- Packages -----

  datatype EntryKind = File | Dir | Symlink | Hardlink | Other

  datatype DebEntry = DebEntry(path: string, kind: EntryKind, mode: bv32, uid: nat, gid: nat, elf: Option<ElfIdent>)

  datatype DebContents = DebContents(control: map<string, string>, entries: seq<DebEntry>)

  datatype Rule =
    | ControlField(field: string) | Architecture | ForeignElf | ElfInArchAll | Owner | Setuid
    | WorldWritable | UsrLocal | MemberPath | Empty

  /** A broken rule, and the member that broke it where it is about one. */
  datatype Finding = Finding(rule: Rule, path: Option<string>)

  const REQUIRED_FIELDS := ["Package", "Version", "Architecture", "Maintainer", "Description"]

  const FIRMWARE_DIRS := ["./lib/firmware/", "./usr/lib/firmware/"]

  // ----- What each rule forbids -----

  predicate Lacks(control: map<string, string>, field: string) {
    field !in control || Trim(control[field]) == ""
  }

  function PackageArch(control: map<string, string>): string {
    if "Architecture" in control then Trim(control["Architecture"]) else ""
  }

  predicate ForAnotherArch(control: map<string, string>, arch: Arch) {
    var a := PackageArch(control);
    a != "" && a != "all" && a != DebianArch(arch)
  }

  predicate StraysFromRoot(path: string) {
    path != "./" && path != "." && (!StartsWith(path, "./") || ".." in Split(path, '/'))
  }

  predicate SetsId(e: DebEntry) {
    e.kind != Symlink && e.mode & 0xC00 != 0
  }

  predicate OpenToAll(e: DebEntry) {
    e.kind != Symlink && e.mode & 2 != 0 && !(e.kind == Dir && e.mode & 0x200 != 0)
  }

  predicate IsFirmware(path: string) {
    exists i :: 0 <= i < |FIRMWARE_DIRS| && StartsWith(path, FIRMWARE_DIRS[i])
  }

  /** Whether one member breaks one rule. */
  predicate EntryBreaks(rule: Rule, e: DebEntry, archAll: bool, target: ElfIdent) {
    match rule
    case MemberPath => StraysFromRoot(e.path)
    case Owner => e.uid != 0 || e.gid != 0
    case Setuid => SetsId(e)
    case WorldWritable => OpenToAll(e)
    case UsrLocal => StartsWith(e.path, "./usr/local/")
    case ElfInArchAll => e.elf.Some? && !IsFirmware(e.path) && archAll
    case ForeignElf => e.elf.Some? && !IsFirmware(e.path) && !archAll && e.elf.value != target
    case _ => false
  }

  predicate OnlyDirectories(entries: seq<DebEntry>) {
    forall i :: 0 <= i < |entries| ==> entries[i].kind == Dir
  }

  predicate LacksField(control: map<string, string>, f: Finding) {
    f.path.None? && f.rule.ControlField? && f.rule.field in REQUIRED_FIELDS && Lacks(control, f.rule.field)
  }

  predicate IsOfAnotherArch(control: map<string, string>, arch: Arch, f: Finding) {
    f == Finding(Architecture, None) && ForAnotherArch(control, arch)
  }

  ghost predicate MemberBreaks(entries: seq<DebEntry>, archAll: bool, target: ElfIdent, f: Finding) {
    f.path.Some? && exists e :: e in entries && e.path == f.path.value && EntryBreaks(f.rule, e, archAll, target)
  }

  predicate InstallsNothing(entries: seq<DebEntry>, f: Finding) {
    f == Finding(Empty, None) && OnlyDirectories(entries)
  }

  /** Whether the package breaks a rule, at a member or as a whole. */
  ghost predicate Breaks(c: DebContents, arch: Arch, f: Finding) {
    || LacksField(c.control, f)
    || IsOfAnotherArch(c.control, arch, f)
    || MemberBreaks(c.entries, PackageArch(c.control) == "all", TargetElf(arch), f)
    || InstallsNothing(c.entries, f)
  }

  // ----- The findings in order -----

  function FieldFindings(control: map<string, string>): string -> seq<Finding> {
    field => if Lacks(control, field) then [Finding(ControlField(field), None)] else []
  }

  function RuleFinding(rule: Rule, e: DebEntry, archAll: bool, target: ElfIdent): seq<Finding> {
    if EntryBreaks(rule, e, archAll, target) then [Finding(rule, Some(e.path))] else []
  }

  function EntryFindings(e: DebEntry, archAll: bool, target: ElfIdent): seq<Finding> {
    RuleFinding(MemberPath, e, archAll, target) + RuleFinding(Owner, e, archAll, target)
    + RuleFinding(Setuid, e, archAll, target) + RuleFinding(WorldWritable, e, archAll, target)
    + RuleFinding(UsrLocal, e, archAll, target)
    + RuleFinding(ElfInArchAll, e, archAll, target) + RuleFinding(ForeignElf, e, archAll, target)
  }

  function MemberFindings(archAll: bool, target: ElfIdent): DebEntry -> seq<Finding> {
    e => EntryFindings(e, archAll, target)
  }

  function ArchitectureFinding(control: map<string, string>, arch: Arch): seq<Finding> {
    if ForAnotherArch(control, arch) then [Finding(Architecture, None)] else []
  }

  function EmptyFinding(entries: seq<DebEntry>): seq<Finding> {
    if OnlyDirectories(entries) then [Finding(Empty, None)] else []
  }

  function Findings(c: DebContents, arch: Arch): seq<Finding> {
    FlatMap(FieldFindings(c.control), REQUIRED_FIELDS)
    + ArchitectureFinding(c.control, arch)
    + FlatMap(MemberFindings(PackageArch(c.control) == "all", TargetElf(arch)), c.entries)
    + EmptyFinding(c.entries)
  }

  /** One member's findings, a branch per rule. */
  method CheckEntry(e: DebEntry, archAll: bool, target: ElfIdent) returns (out: seq<Finding>)
    ensures out == EntryFindings(e, archAll, target)
  {
    var path := Some(e.path);
    out := CheckPath(e, archAll, target);
    if e.uid != 0 || e.gid != 0 {
      out := out + [Finding(Owner, path)];
    }
    assert out == RuleFinding(MemberPath, e, archAll, target) + RuleFinding(Owner, e, archAll, target);
    out := CheckMode(out, e, archAll, target);
    ghost var before := out;
    if StartsWith(e.path, "./usr/local/") {
      out := out + [Finding(UsrLocal, path)];
    }
    assert out == before + RuleFinding(UsrLocal, e, archAll, target);
    out := CheckElf(out, e, archAll, target);
  }

  method CheckPath(e: DebEntry, archAll: bool, target: ElfIdent) returns (out: seq<Finding>)
    ensures out == RuleFinding(MemberPath, e, archAll, target)
  {
    out := [];
    if e.path != "./" && e.path != "." {
      var relative := StartsWith(e.path, "./");
      var climbs := ".." in Split(e.path, '/');
      if !relative || climbs {
        out := [Finding(MemberPath, Some(e.path))];
      }
    }
  }

  method CheckMode(before: seq<Finding>, e: DebEntry, archAll: bool, target: ElfIdent) returns (out: seq<Finding>)
    ensures out == before + RuleFinding(Setuid, e, archAll, target) + RuleFinding(WorldWritable, e, archAll, target)
  {
    out := before;
    if e.kind != Symlink {
      if e.mode & 0xC00 != 0 {
        out := out + [Finding(Setuid, Some(e.path))];
      }
      var stickyDir := e.kind == Dir && e.mode & 0x200 != 0;
      if e.mode & 2 != 0 && !stickyDir {
        out := out + [Finding(WorldWritable, Some(e.path))];
      }
    }
  }

  method CheckElf(before: seq<Finding>, e: DebEntry, archAll: bool, target: ElfIdent) returns (out: seq<Finding>)
    ensures out == before + RuleFinding(ElfInArchAll, e, archAll, target) + RuleFinding(ForeignElf, e, archAll, target)
  {
    out := before;
    if e.elf.Some? && !IsFirmware(e.path) {
      if archAll {
        out := out + [Finding(ElfInArchAll, Some(e.path))];
      } else if e.elf.value != target {
        out := out + [Finding(ForeignElf, Some(e.path))];
      }
    }
  }

  method Check(c: DebContents, arch: Arch) returns (out: seq<Finding>)
    ensures out == Findings(c, arch)
  {
    out := CheckFields(c.control);
    var archAll := PackageArch(c.control) == "all";
    out := CheckArchitecture(out, c.control, arch);
    var members := CheckEntries(c.entries, archAll, TargetElf(arch));
    out := out + members;
    ghost var before := out;
    if !(exists i :: 0 <= i < |c.entries| && c.entries[i].kind != Dir) {
      out := out + [Finding(Empty, None)];
    }
    assert out == before + EmptyFinding(c.entries);
  }

  method CheckArchitecture(before: seq<Finding>, control: map<string, string>, arch: Arch) returns (out: seq<Finding>)
    ensures out == before + ArchitectureFinding(control, arch)
  {
    out := before;
    var packageArch := PackageArch(control);
    if packageArch != "" && packageArch != "all" && packageArch != DebianArch(arch) {
      out := out + [Finding(Architecture, None)];
    }
  }

  method CheckFields(control: map<string, string>) returns (out: seq<Finding>)
    ensures out == FlatMap(FieldFindings(control), REQUIRED_FIELDS)
  {
    out := [];
    var fields := REQUIRED_FIELDS;
    for i := 0 to |fields|
      invariant out == FlatMap(FieldFindings(control), fields[..i])
    {
      FlatMapStep(FieldFindings(control), fields, i);
      var field := fields[i];
      if field !in control || Trim(control[field]) == "" {
        out := out + [Finding(ControlField(field), None)];
      }
    }
    assert fields[..|fields|] == fields;
  }

  method CheckEntries(entries: seq<DebEntry>, archAll: bool, target: ElfIdent) returns (out: seq<Finding>)
    ensures out == FlatMap(MemberFindings(archAll, target), entries)
  {
    out := [];
    for i := 0 to |entries|
      invariant out == FlatMap(MemberFindings(archAll, target), entries[..i])
    {
      FlatMapStep(MemberFindings(archAll, target), entries, i);
      var found := CheckEntry(entries[i], archAll, target);
      out := out + found;
    }
    assert entries[..|entries|] == entries;
  }

  // ----- What a report says -----

  lemma FieldFindingsMean(control: map<string, string>, f: Finding)
    ensures f in FlatMap(FieldFindings(control), REQUIRED_FIELDS) <==> LacksField(control, f)
  {
    InFlatMap(FieldFindings(control), REQUIRED_FIELDS, f);
    if LacksField(control, f) {
      assert f in FieldFindings(control)(f.rule.field);
    }
  }

  lemma WholeFindingsMean(c: DebContents, arch: Arch, f: Finding)
    ensures f in ArchitectureFinding(c.control, arch) <==> IsOfAnotherArch(c.control, arch, f)
    ensures f in EmptyFinding(c.entries) <==> InstallsNothing(c.entries, f)
  {
  }

  lemma EntryFindingsMean(e: DebEntry, archAll: bool, target: ElfIdent, f: Finding)
    ensures f in EntryFindings(e, archAll, target) <==> f.path == Some(e.path) && EntryBreaks(f.rule, e, archAll, target)
  {
  }

  lemma MemberFindingsMean(entries: seq<DebEntry>, archAll: bool, target: ElfIdent, f: Finding)
    ensures f in FlatMap(MemberFindings(archAll, target), entries) <==> MemberBreaks(entries, archAll, target, f)
  {
    InFlatMap(MemberFindings(archAll, target), entries, f);
    forall e ensures f in MemberFindings(archAll, target)(e) <==> f.path == Some(e.path) && EntryBreaks(f.rule, e, archAll, target) {
      EntryFindingsMean(e, archAll, target, f);
    }
  }

  /** The report lists exactly the rules the package breaks, where it breaks them. */
  lemma FindingsMean(c: DebContents, arch: Arch, f: Finding)
    ensures f in Findings(c, arch) <==> Breaks(c, arch, f)
  {
    var archAll, target := PackageArch(c.control) == "all", TargetElf(arch);
    FieldFindingsMean(c.control, f);
    MemberFindingsMean(c.entries, archAll, target, f);
    WholeFindingsMean(c, arch, f);
    InFour(FlatMap(FieldFindings(c.control), REQUIRED_FIELDS), ArchitectureFinding(c.control, arch),
           FlatMap(MemberFindings(archAll, target), c.entries), EmptyFinding(c.entries), f);
  }

  lemma InFour<T>(a: seq<T>, b: seq<T>, c: seq<T>, d: seq<T>, x: T)
    ensures x in a + b + c + d <==> x in a || x in b || x in c || x in d
  {
  }

  /** A package without findings keeps every rule. */
  lemma AdmittedMeans(c: DebContents, arch: Arch)
    ensures Findings(c, arch) == [] <==> forall f :: !Breaks(c, arch, f)
  {
    forall f ensures f in Findings(c, arch) <==> Breaks(c, arch, f) {
      FindingsMean(c, arch, f);
    }
    if Findings(c, arch) != [] {
      assert Findings(c, arch)[0] in Findings(c, arch);
    }
  }

  /** What an admitted package's members keep. */
  lemma AdmittedMemberKeeps(c: DebContents, arch: Arch, e: DebEntry, rule: Rule)
    requires Findings(c, arch) == [] && e in c.entries
    ensures !EntryBreaks(rule, e, PackageArch(c.control) == "all", TargetElf(arch))
  {
    var f := Finding(rule, Some(e.path));
    FindingsMean(c, arch, f);
    assert !MemberBreaks(c.entries, PackageArch(c.control) == "all", TargetElf(arch), f);
  }

  // ----- One package, two targets -----

  /** A package for every architecture, or for the one a build targets. */
  predicate MeantFor(c: DebContents, arch: Arch) {
    PackageArch(c.control) == "all" || PackageArch(c.control) == DebianArch(arch)
  }

  lemma ArchNames(a: Arch, b: Arch)
    ensures DebianArch(a) != "all" && DebianArch(a) != ""
    ensures DebianArch(a) == DebianArch(b) ==> a == b
  {
    assert DebianArch(a)[0] == 'a' || DebianArch(a)[0] == 'r';
    assert DebianArch(Arm64)[3] != DebianArch(Armv7)[3];
  }

  /** A package that passes names its architecture, and one that suits the target. */
  lemma PassingIsMeantFor(c: DebContents, arch: Arch)
    requires Findings(c, arch) == []
    ensures MeantFor(c, arch)
  {
    AdmittedMeans(c, arch);
    assert REQUIRED_FIELDS[2] == "Architecture";
    assert !Breaks(c, arch, Finding(ControlField("Architecture"), None));
    assert !Breaks(c, arch, Finding(Architecture, None));
  }

  /** An architecture-independent package breaks for one target what it breaks for another. */
  lemma AllBreaksAlike(c: DebContents, a: Arch, b: Arch, f: Finding)
    requires PackageArch(c.control) == "all"
    ensures Breaks(c, b, f) ==> Breaks(c, a, f)
  {
    if MemberBreaks(c.entries, true, TargetElf(b), f) {
      var e :| e in c.entries && e.path == f.path.value && EntryBreaks(f.rule, e, true, TargetElf(b));
      assert EntryBreaks(f.rule, e, true, TargetElf(a));
    }
  }

  /** A package that passes for one target passes for another exactly when it is meant for
      that one too. */
  lemma PassesForAnother(c: DebContents, a: Arch, b: Arch)
    requires Findings(c, a) == []
    ensures Findings(c, b) == [] <==> MeantFor(c, b)
  {
    PassingIsMeantFor(c, a);
    ArchNames(a, b);
    if PackageArch(c.control) == "all" {
      AdmittedMeans(c, a);
      AdmittedMeans(c, b);
      forall f ensures !Breaks(c, b, f) {
        AllBreaksAlike(c, a, b, f);
      }
    }
    if Findings(c, b) == [] {
      PassingIsMeantFor(c, b);
    }
  }

  // ----- A package for one of two targets -----

  const SAMPLE_CONTROL := map["Package" := "p", "Version" := "1", "Architecture" := "armhf", "Maintainer" := "m", "Description" := "d"]

  /** A package of one plain file. */
  function PlainPackage(path: string): DebContents {
    DebContents(SAMPLE_CONTROL, [DebEntry(path, File, 0, 0, 0, None)])
  }

  lemma SampleFields(field: string)
    requires field in REQUIRED_FIELDS
    ensures !Lacks(SAMPLE_CONTROL, field)
  {
    var v := SAMPLE_CONTROL[field];
    assert v == "p" || v == "1" || v == "armhf" || v == "m" || v == "d";
    assert IsTrimmed(v) && v != "";
    TrimTrimmed(v);
  }

  lemma SampleArch()
    ensures PackageArch(SAMPLE_CONTROL) == "armhf"
  {
    ArchText(SAMPLE_CONTROL["Architecture"]);
  }

  lemma ArchText(v: string)
    requires v == "armhf"
    ensures Trim(v) == v
  {
    TrimTrimmed(v);
  }

  lemma PlainMember(path: string, rule: Rule, target: ElfIdent)
    requires !StraysFromRoot(path) && !StartsWith(path, "./usr/local/")
    ensures !EntryBreaks(rule, DebEntry(path, File, 0, 0, 0, None), false, target)
  {
  }

  lemma PlainControl(f: Finding)
    ensures !LacksField(SAMPLE_CONTROL, f) && !IsOfAnotherArch(SAMPLE_CONTROL, Armv7, f)
    ensures PackageArch(SAMPLE_CONTROL) != "all"
  {
    SampleArch();
    ArchNames(Armv7, Armv7);
    if LacksField(SAMPLE_CONTROL, f) {
      SampleFields(f.rule.field);
    }
  }

  lemma PlainEntries(path: string, target: ElfIdent, f: Finding)
    requires !StraysFromRoot(path) && !StartsWith(path, "./usr/local/")
    ensures !MemberBreaks(PlainPackage(path).entries, false, target, f) && !InstallsNothing(PlainPackage(path).entries, f)
  {
    PlainMember(path, f.rule, target);
    assert PlainPackage(path).entries[0].kind == File;
  }

  lemma PlainBreaksNothing(path: string, f: Finding)
    requires !StraysFromRoot(path) && !StartsWith(path, "./usr/local/")
    ensures !Breaks(PlainPackage(path), Armv7, f)
  {
    PlainControl(f);
    PlainEntries(path, TargetElf(Armv7), f);
  }

  /** A package of one plain file, whose path keeps the path rules, passes for the target it
      is made for and is not meant for another. */
  lemma PlainPackagePasses(path: string)
    requires !StraysFromRoot(path) && !StartsWith(path, "./usr/local/")
    ensures Findings(PlainPackage(path), Armv7) == [] && !MeantFor(PlainPackage(path), Arm64)
  {
    SampleArch();
    ArchNames(Armv7, Arm64);
    ArchNames(Arm64, Armv7);
    forall f ensures !Breaks(PlainPackage(path), Armv7, f) {
      PlainBreaksNothing(path, f);
    }
    AdmittedMeans(PlainPackage(path), Armv7);
  }
}
