/** What a package must be to enter the local repository, crates/core/src/debcheck.rs, said
    of the package itself rule by rule. */
module PackageAdmission {
  import opened PackageRules
  import opened Text
  import opened Wrappers

  predicate OwnedByRoot(e: DebEntry) {
    e.uid == 0 && e.gid == 0
  }

  predicate HasBit(mode: bv32, bit: bv32) {
    mode & bit == bit
  }

  /** The bits of chmod(2): set-user-id, set-group-id, sticky and write by others. */
  const SETUID_BIT: bv32 := 2048
  const SETGID_BIT: bv32 := 1024
  const STICKY_BIT: bv32 := 512
  const OTHERS_WRITE_BIT: bv32 := 2

  /** A link's mode means nothing. Of anything else neither of the set-id bits is set. */
  predicate RunsAsItsUser(e: DebEntry) {
    e.kind == Symlink || (!HasBit(e.mode, SETUID_BIT) && !HasBit(e.mode, SETGID_BIT))
  }

  /** Others may write to a link and to a sticky directory only. */
  predicate ClosedToOthers(e: DebEntry) {
    || e.kind == Symlink || !HasBit(e.mode, OTHERS_WRITE_BIT)
    || (e.kind == Dir && HasBit(e.mode, STICKY_BIT))
  }

  predicate UnderFirmware(path: string) {
    StartsWith(path, "./lib/firmware/") || StartsWith(path, "./usr/lib/firmware/")
  }

  predicate RelativePath(path: string) {
    path == "." || path == "./" || (StartsWith(path, "./") && ".." !in Split(path, '/'))
  }

  /** An object file runs on the target, which a package for all architectures has none. */
  predicate ForTarget(e: DebEntry, packageArch: string, arch: Arch) {
    e.elf.None? || UnderFirmware(e.path) || (packageArch != "all" && e.elf == Some(TargetElf(arch)))
  }

  predicate SoundMember(e: DebEntry, packageArch: string, arch: Arch) {
    && RelativePath(e.path) && !StartsWith(e.path, "./usr/local/")
    && OwnedByRoot(e) && RunsAsItsUser(e) && ClosedToOthers(e)
    && ForTarget(e, packageArch, arch)
  }

  predicate HasField(control: map<string, string>, field: string) {
    field in control && Trim(control[field]) != ""
  }

  predicate HasFields(control: map<string, string>) {
    && HasField(control, "Package") && HasField(control, "Version") && HasField(control, "Architecture")
    && HasField(control, "Maintainer") && HasField(control, "Description")
  }

  lemma BitsApart(mode: bv32)
    ensures mode & 0xC00 != 0 <==> HasBit(mode, SETUID_BIT) || HasBit(mode, SETGID_BIT)
    ensures mode & 0x200 != 0 <==> HasBit(mode, STICKY_BIT)
    ensures mode & 2 != 0 <==> HasBit(mode, OTHERS_WRITE_BIT)
  {
  }

  lemma FirmwareDirs(path: string)
    ensures IsFirmware(path) <==> UnderFirmware(path)
  {
    assert FIRMWARE_DIRS[0] == "./lib/firmware/" && FIRMWARE_DIRS[1] == "./usr/lib/firmware/";
  }

  /** Whether a member is what a rule is there to find. */
  predicate Offends(rule: Rule, e: DebEntry, packageArch: string, arch: Arch) {
    match rule
    case MemberPath => !RelativePath(e.path)
    case UsrLocal => StartsWith(e.path, "./usr/local/")
    case Owner => !OwnedByRoot(e)
    case Setuid => !RunsAsItsUser(e)
    case WorldWritable => !ClosedToOthers(e)
    case ElfInArchAll => packageArch == "all" && !ForTarget(e, packageArch, arch)
    case ForeignElf => packageArch != "all" && !ForTarget(e, packageArch, arch)
    case ControlField(_) => false
    case Architecture => false
    case Empty => false
  }

  lemma MemberRules(rule: Rule, e: DebEntry, packageArch: string, arch: Arch)
    ensures EntryBreaks(rule, e, packageArch == "all", TargetElf(arch)) <==> Offends(rule, e, packageArch, arch)
  {
    BitsApart(e.mode);
    FirmwareDirs(e.path);
  }

  lemma BreaksAtMember(c: DebContents, arch: Arch, f: Finding)
    requires f.path.Some?
    ensures Breaks(c, arch, f) <==> MemberBreaks(c.entries, PackageArch(c.control) == "all", TargetElf(arch), f)
  {
  }

  /** A rule is reported at a path exactly when a member of that path offends against it. */
  lemma EachRuleFinds(c: DebContents, arch: Arch, rule: Rule, path: string)
    ensures Finding(rule, Some(path)) in Findings(c, arch)
       <==> exists e :: e in c.entries && e.path == path && Offends(rule, e, PackageArch(c.control), arch)
  {
    FindingsMean(c, arch, Finding(rule, Some(path)));
    BreaksAtMember(c, arch, Finding(rule, Some(path)));
    forall e ensures EntryBreaks(rule, e, PackageArch(c.control) == "all", TargetElf(arch)) <==> Offends(rule, e, PackageArch(c.control), arch) {
      MemberRules(rule, e, PackageArch(c.control), arch);
    }
  }

  /** The package names the target's architecture, or all of them. */
  predicate SuitsTarget(packageArch: string, arch: Arch) {
    || packageArch == "all"
    || (arch == Arm64 && packageArch == "arm64")
    || (arch == Armv7 && packageArch == "armhf")
    || (arch == Riscv64 && packageArch == "riscv64")
  }

  lemma SuitsByName(packageArch: string, arch: Arch)
    ensures SuitsTarget(packageArch, arch) <==> packageArch == "all" || packageArch == DebianArch(arch)
  {
  }

  lemma BreaksAsWhole(c: DebContents, arch: Arch, rule: Rule)
    ensures Finding(rule, None) in Findings(c, arch) <==>
      || LacksField(c.control, Finding(rule, None))
      || (rule == Architecture && ForAnotherArch(c.control, arch))
      || (rule == Empty && OnlyDirectories(c.entries))
  {
    FindingsMean(c, arch, Finding(rule, None));
  }

  /** Whether the package as a whole is what a rule is there to find: it lacks a field, names
      an architecture that does not suit, or installs nothing but directories. */
  ghost predicate WholeOffends(rule: Rule, c: DebContents, arch: Arch) {
    || (rule.ControlField? && rule.field in REQUIRED_FIELDS && !HasField(c.control, rule.field))
    || (rule == Architecture && HasField(c.control, "Architecture") && !SuitsTarget(PackageArch(c.control), arch))
    || (rule == Empty && forall e :: e in c.entries ==> e.kind == Dir)
  }

  lemma EachRuleFindsTheWhole(c: DebContents, arch: Arch, rule: Rule)
    ensures Finding(rule, None) in Findings(c, arch) <==> WholeOffends(rule, c, arch)
  {
    BreaksAsWhole(c, arch, rule);
    SuitsByName(PackageArch(c.control), arch);
  }

  /** What a member that offends against no rule is. */
  lemma SoundOffendsNot(e: DebEntry, packageArch: string, arch: Arch)
    ensures SoundMember(e, packageArch, arch) <==> forall rule :: !Offends(rule, e, packageArch, arch)
  {
    if forall rule :: !Offends(rule, e, packageArch, arch) {
      assert !Offends(MemberPath, e, packageArch, arch) && !Offends(UsrLocal, e, packageArch, arch);
      assert !Offends(Owner, e, packageArch, arch) && !Offends(Setuid, e, packageArch, arch);
      assert !Offends(WorldWritable, e, packageArch, arch);
      assert !Offends(ElfInArchAll, e, packageArch, arch) && !Offends(ForeignElf, e, packageArch, arch);
    }
  }

  /** A package is admitted exactly when it has its fields, suits the target, installs
      something, and each of its members is sound. */
  lemma AdmittedExactly(c: DebContents, arch: Arch)
    ensures Findings(c, arch) == [] <==>
      && HasFields(c.control) && SuitsTarget(PackageArch(c.control), arch)
      && (exists e :: e in c.entries && e.kind != Dir)
      && forall e :: e in c.entries ==> SoundMember(e, PackageArch(c.control), arch)
  {
    if Findings(c, arch) == [] {
      AdmittedIsSound(c, arch);
    } else {
      FoundIsUnsound(c, arch, Findings(c, arch)[0]);
    }
  }

  lemma RequiredNames()
    ensures forall field :: field in REQUIRED_FIELDS <==>
              field == "Package" || field == "Version" || field == "Architecture" || field == "Maintainer" || field == "Description"
  {
    var fields := REQUIRED_FIELDS;
    assert fields[0] == "Package" && fields[1] == "Version" && fields[2] == "Architecture";
    assert fields[3] == "Maintainer" && fields[4] == "Description";
  }

  lemma RequiredAreThere(control: map<string, string>)
    ensures HasFields(control) <==> forall field :: field in REQUIRED_FIELDS ==> HasField(control, field)
  {
    RequiredNames();
  }

  lemma WholeSound(c: DebContents, arch: Arch)
    requires forall rule :: !WholeOffends(rule, c, arch)
    ensures HasFields(c.control) && SuitsTarget(PackageArch(c.control), arch)
    ensures exists e :: e in c.entries && e.kind != Dir
  {
    RequiredAreThere(c.control);
    assert !WholeOffends(Architecture, c, arch) && !WholeOffends(Empty, c, arch);
    forall field | field in REQUIRED_FIELDS ensures HasField(c.control, field) {
      assert !WholeOffends(ControlField(field), c, arch);
    }
  }

  lemma AdmittedIsSound(c: DebContents, arch: Arch)
    requires Findings(c, arch) == []
    ensures HasFields(c.control) && SuitsTarget(PackageArch(c.control), arch)
    ensures exists e :: e in c.entries && e.kind != Dir
    ensures forall e :: e in c.entries ==> SoundMember(e, PackageArch(c.control), arch)
  {
    forall rule ensures !WholeOffends(rule, c, arch) {
      EachRuleFindsTheWhole(c, arch, rule);
    }
    WholeSound(c, arch);
    forall e | e in c.entries ensures SoundMember(e, PackageArch(c.control), arch) {
      forall rule ensures !Offends(rule, e, PackageArch(c.control), arch) {
        EachRuleFinds(c, arch, rule, e.path);
      }
      SoundOffendsNot(e, PackageArch(c.control), arch);
    }
  }

  lemma WholeUnsound(c: DebContents, arch: Arch, rule: Rule)
    requires WholeOffends(rule, c, arch)
    ensures !HasFields(c.control) || !SuitsTarget(PackageArch(c.control), arch) || forall e :: e in c.entries ==> e.kind == Dir
  {
    RequiredAreThere(c.control);
  }

  lemma FoundIsUnsound(c: DebContents, arch: Arch, f: Finding)
    requires f in Findings(c, arch)
    ensures !HasFields(c.control) || !SuitsTarget(PackageArch(c.control), arch)
      || (forall e :: e in c.entries ==> e.kind == Dir)
      || exists e :: e in c.entries && !SoundMember(e, PackageArch(c.control), arch)
  {
    if f.path.Some? {
      EachRuleFinds(c, arch, f.rule, f.path.value);
      var e :| e in c.entries && Offends(f.rule, e, PackageArch(c.control), arch);
      SoundOffendsNot(e, PackageArch(c.control), arch);
    } else {
      EachRuleFindsTheWhole(c, arch, f.rule);
      WholeUnsound(c, arch, f.rule);
    }
  }

  // ----- Which object files run on a target -----

  /** The identification a little-endian object file of each target starts with: its class
      in the fifth byte and its machine in the last two (chapter 4 of the System V ABI). */
  lemma TargetHeaders(between: seq<byte>)
    requires |between| == 12
    ensures IdentifyElf([0x7f, 0x45, 0x4c, 0x46, 2, 1] + between + [0xb7, 0]) == Some(TargetElf(Arm64))
    ensures IdentifyElf([0x7f, 0x45, 0x4c, 0x46, 1, 1] + between + [0x28, 0]) == Some(TargetElf(Armv7))
    ensures IdentifyElf([0x7f, 0x45, 0x4c, 0x46, 2, 1] + between + [0xf3, 0]) == Some(TargetElf(Riscv64))
  {
  }
}
