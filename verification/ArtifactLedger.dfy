/** The artifact ledger of an output directory, crates/cli/src/artifacts.rs: which packages
    the trusted local repository may take, over every run of calls and of changes made to
    the files from outside. */
module ArtifactLedger {
  import opened Lists
  import opened NameWalks
  import opened Orders
  import opened PackageRules
  import opened Sorting
  import opened Text
  import opened Wrappers

  datatype DebPath = DebPath(dir: string, name: string)

  /** The files there are; None is one that does not read as a package. */
  type Disk = map<DebPath, Option<DebContents>>

  // ----- The text of a ledger -----

  function NameOn(line: string): seq<string> {
    if Trim(line) == "" then [] else [Trim(line)]
  }

  /** The names a text holds, one a line. */
  function NamesIn(text: string): seq<string> {
    FlatMap(NameOn, Lines(text))
  }

  /** A ledger's names as the sorted set they are read into; a missing file holds none. */
  function LedgerNames(ledger: Option<string>): seq<string> {
    if ledger.None? then [] else InOrder(NamesIn(ledger.value))
  }

  /** A set of names as it is written. */
  function LedgerText(names: seq<string>): string {
    Join(InOrder(names), "\n")
  }

  predicate Clean(name: string) {
    name != "" && IsTrimmed(name) && '\n' !in name
  }

  function Front(s: string): string {
    if s == "" then "" else s[..|s| - 1]
  }

  lemma TrimStartOnce(s: string)
    requires s != ""
    ensures TrimStart(s) == if IsSpace(s[0]) then TrimStart(s[1..]) else s
  {
  }

  lemma FrontOfTail(s: string)
    requires |s| > 1
    ensures Front(s)[1..] == Front(s[1..]) && Front(s)[0] == s[0]
  {
  }

  lemma {:induction false} TrimStartOfFront(s: string)
    requires s != "" && IsSpace(s[|s| - 1])
    ensures TrimStart(Front(s)) == Front(TrimStart(s))
  {
    TrimStartOnce(s);
    if |s| > 1 {
      FrontOfTail(s);
      TrimStartOnce(Front(s));
      if IsSpace(s[0]) {
        TrimStartOfFront(s[1..]);
      }
    } else {
      assert Front(s) == "" && s[1..] == "";
    }
  }

  lemma TrimEndOfFront(s: string)
    requires s != "" ==> IsSpace(s[|s| - 1])
    ensures TrimEnd(Front(s)) == TrimEnd(s)
  {
  }

  lemma TrimDropsLastSpace(s: string)
    requires s != "" && IsSpace(s[|s| - 1])
    ensures Trim(Front(s)) == Trim(s)
  {
    TrimStartOfFront(s);
    var t := TrimStart(s);
    assert t != "" ==> t[|t| - 1] == s[|s| - 1];
    TrimEndOfFront(t);
  }

  lemma KeptWithoutReturn(line: string)
    ensures NameOn(WithoutReturn(line)) == NameOn(line)
  {
    if line != "" && line[|line| - 1] == '\r' {
      TrimDropsLastSpace(line);
    }
  }

  lemma PiecesFrom(head: string, rest: string)
    requires '\n' !in head
    ensures NamesIn(head + ("\n" + rest)) == NameOn(head) + NamesIn(rest)
  {
    var s := head + ("\n" + rest);
    FindPast(head, "\n" + rest, '\n');
    assert Find("\n" + rest, '\n') == 0;
    Prefix(head, "\n" + rest);
    assert s[|head| + 1..] == rest;
    FlatMapConcat(NameOn, [WithoutReturn(head)], Lines(rest));
    FlatMapOne(NameOn, WithoutReturn(head));
    KeptWithoutReturn(head);
  }

  lemma PiecesOfLine(line: string)
    requires '\n' !in line
    ensures NamesIn(line) == NameOn(line)
  {
    FlatMapOne(NameOn, line);
  }

  lemma {:induction false} PiecesConcat(a: string, b: string)
    ensures NamesIn(a + ("\n" + b)) == NamesIn(a) + NamesIn(b)
    decreases |a|
  {
    var i := Find(a, '\n');
    if i == |a| {
      PiecesFrom(a, b);
      PiecesOfLine(a);
    } else {
      var head, tail := a[..i], a[i + 1..];
      assert a == head + ("\n" + tail);
      assert a + ("\n" + b) == head + ("\n" + (tail + ("\n" + b)));
      PiecesFrom(head, tail + ("\n" + b));
      PiecesFrom(head, tail);
      PiecesConcat(tail, b);
      Associative(NameOn(head), NamesIn(tail), NamesIn(b));
    }
  }

  /** A reading that reads the two sides of a newline apart reads joined names apart. */
  lemma {:induction false} ReadsApart(read: string -> seq<string>, names: seq<string>)
    requires read("") == []
    requires forall a, b :: read(a + ("\n" + b)) == read(a) + read(b)
    ensures read(Join(names, "\n")) == FlatMap(read, names)
  {
    if |names| == 1 {
      FlatMapOne(read, names[0]);
      assert names == [names[0]];
    } else if |names| > 1 {
      var rest := names[1..];
      ReadsApart(read, rest);
      assert names == [names[0]] + rest;
      FlatMapConcat(read, [names[0]], rest);
      FlatMapOne(read, names[0]);
      Associative(names[0], "\n", Join(rest, "\n"));
    }
  }

  /** Joining names and reading the text gives the pieces of each name. */
  lemma PiecesJoin(names: seq<string>)
    ensures NamesIn(Join(names, "\n")) == FlatMap(NamesIn, names)
  {
    forall a, b ensures NamesIn(a + ("\n" + b)) == NamesIn(a) + NamesIn(b) {
      PiecesConcat(a, b);
    }
    ReadsApart(NamesIn, names);
  }

  lemma CleanIsOnePiece(name: string)
    requires Clean(name)
    ensures NamesIn(name) == [name]
  {
    PiecesOfLine(name);
    TrimTrimmed(name);
  }

  lemma {:induction false} LinesHaveNoNewline(s: string)
    ensures forall line :: line in Lines(s) ==> '\n' !in line
    decreases |s|
  {
    var i := Find(s, '\n');
    if i < |s| {
      LinesHaveNoNewline(s[i + 1..]);
    }
  }

  /** Whatever a ledger holds, every name read from it is clean. */
  lemma PiecesAreClean(s: string, name: string)
    requires name in NamesIn(s)
    ensures Clean(name)
  {
    InFlatMap(NameOn, Lines(s), name);
    var line :| line in Lines(s) && name in NameOn(line);
    LinesHaveNoNewline(s);
    TrimIsTrimmed(line);
    TrimKeepsOut(line, '\n');
  }

  lemma TrimKeepsOut(s: string, c: char)
    requires c !in s
    ensures c !in Trim(s)
  {
    assert TrimStart(s) == s[|s| - |TrimStart(s)|..];
  }

  lemma InPieces(names: seq<string>, x: string)
    ensures x in LedgerNames(Some(LedgerText(names))) <==> exists n :: n in names && x in NamesIn(n)
  {
    PiecesJoin(InOrder(names));
    InOrderMeans(names);
    InOrderMeans(NamesIn(LedgerText(names)));
    InFlatMap(NamesIn, InOrder(names), x);
  }

  /** A written set of names reads back exactly when every name is clean: not empty, with
      no white space around it and no newline in it. */
  lemma LedgerReads(names: seq<string>)
    ensures LedgerNames(Some(LedgerText(names))) == InOrder(names) <==> forall n :: n in names ==> Clean(n)
  {
    var read := LedgerNames(Some(LedgerText(names)));
    InOrderMeans(names);
    InOrderMeans(NamesIn(LedgerText(names)));
    if read == InOrder(names) {
      forall n | n in names ensures Clean(n) {
        assert n in read;
        PiecesAreClean(LedgerText(names), n);
      }
    }
    if forall n :: n in names ==> Clean(n) {
      forall x ensures x in read <==> x in InOrder(names) {
        InPieces(names, x);
        if x in names {
          CleanIsOnePiece(x);
        }
        if n :| n in names && x in NamesIn(n) {
          CleanIsOnePiece(n);
        }
      }
      AscendingUnique(read, InOrder(names));
    }
  }

  // ----- One output directory -----

  predicate Passes(disk: Disk, deb: DebPath, arch: Arch) {
    deb in disk && disk[deb].Some? && Findings(disk[deb].value, arch) == []
  }

  predicate AllPass(disk: Disk, debs: seq<DebPath>, arch: Arch) {
    forall i :: 0 <= i < |debs| ==> Passing(disk, arch)(debs[i])
  }

  function Passing(disk: Disk, arch: Arch): DebPath -> bool {
    (deb: DebPath) => Passes(disk, deb, arch)
  }

  function Failing(disk: Disk, debs: seq<DebPath>, arch: Arch): nat {
    Misses(Passing(disk, arch), debs)
  }

  lemma FailingMeans(disk: Disk, debs: seq<DebPath>, arch: Arch)
    ensures Failing(disk, debs, arch) == 0 <==> AllPass(disk, debs, arch)
  {
    NoMisses(Passing(disk, arch), debs);
  }

  /** The name of a package that lies in the directory itself. */
  function StagedName(dir: string): DebPath -> seq<string> {
    (deb: DebPath) => if deb.dir == dir then [deb.name] else []
  }

  function StagedNames(dir: string, debs: seq<DebPath>): seq<string> {
    FlatMap(StagedName(dir), debs)
  }

  /** How many packages the rules reject, or nothing: recorded. */
  datatype Outcome = Recorded | Rejected(failing: nat)

  datatype State = State(disk: Disk, ledger: Option<string>)

  /** Recording: all of the packages, or none. */
  function AfterRecord(dir: string, s: State, debs: seq<DebPath>, arch: Arch): State {
    if AllPass(s.disk, debs, arch)
    then s.(ledger := Some(LedgerText(LedgerNames(s.ledger) + StagedNames(dir, debs))))
    else s
  }

  class OutputDir {
    const dir: string
    var disk: Disk
    var ledger: Option<string>

    constructor (dir: string, disk: Disk)
      ensures this.dir == dir && Value() == State(disk, None)
    {
      this.dir := dir;
      this.disk := disk;
      this.ledger := None;
    }

    function Value(): State
      reads this
    {
      State(disk, ledger)
    }

    /** Reads every package before deciding. */
    method CheckPackages(debs: seq<DebPath>, arch: Arch) returns (failing: nat)
      ensures failing == Failing(disk, debs, arch)
    {
      failing := 0;
      for i := 0 to |debs|
        invariant failing == Failing(disk, debs[..i], arch)
      {
        FrontOfTake(debs, i);
        if debs[i] !in disk || disk[debs[i]].None? {
          failing := failing + 1;
        } else {
          var findings := Check(disk[debs[i]].value, arch);
          if findings != [] {
            failing := failing + 1;
          }
        }
      }
      assert debs[..|debs|] == debs;
    }

    method RecordArtifacts(debs: seq<DebPath>, arch: Arch) returns (r: Outcome)
      modifies this`ledger
      ensures Value() == AfterRecord(dir, old(Value()), debs, arch)
      ensures r == if AllPass(disk, debs, arch) then Recorded else Rejected(Failing(disk, debs, arch))
    {
      FailingMeans(disk, debs, arch);
      LedgerInOrder(ledger);
      var failing := CheckPackages(debs, arch);
      if failing != 0 {
        return Rejected(failing);
      }
      var names := AddStaged(LedgerNames(ledger), debs);
      ledger := Some(Join(names, "\n"));
      return Recorded;
    }

    /** Inserts the name of every package in the directory itself. */
    method AddStaged(recorded: seq<string>, debs: seq<DebPath>) returns (names: seq<string>)
      requires Ascending(recorded)
      ensures names == InOrder(recorded + StagedNames(dir, debs))
    {
      names := recorded;
      SortedAgain(recorded);
      assert recorded + [] == recorded;
      for i := 0 to |debs|
        invariant names == InOrder(recorded + StagedNames(dir, debs[..i]))
      {
        FlatMapStep(StagedName(dir), debs, i);
        if debs[i].dir == dir {
          Inserted(recorded + StagedNames(dir, debs[..i]), debs[i].name);
          Associative(recorded, StagedNames(dir, debs[..i]), [debs[i].name]);
          names := InOrder(names + [debs[i].name]);
        } else {
          assert StagedNames(dir, debs[..i]) + [] == StagedNames(dir, debs[..i]);
        }
      }
      assert debs[..|debs|] == debs;
    }
  }

  lemma SortedAgain(names: seq<string>)
    requires Ascending(names)
    ensures InOrder(names) == names
  {
    InOrderMeans(names);
    AscendingUnique(InOrder(names), names);
  }

  lemma Inserted(names: seq<string>, name: string)
    ensures InOrder(InOrder(names) + [name]) == InOrder(names + [name])
  {
    InOrderMeans(names);
    InOrderMeans(InOrder(names) + [name]);
    InOrderMeans(names + [name]);
    AscendingUnique(InOrder(InOrder(names) + [name]), InOrder(names + [name]));
  }

  // ----- What the repository takes -----

  function Existing(disk: Disk, dir: string, names: seq<string>): seq<string> {
    if names == [] then []
    else
      var before := Existing(disk, dir, names[..|names| - 1]);
      if DebPath(dir, names[|names| - 1]) in disk then before + [names[|names| - 1]] else before
  }

  /** The recorded packages that are still there, sorted; none at all is an error. */
  function LedgerDebs(dir: string, s: State): Option<seq<string>> {
    var there := Existing(s.disk, dir, LedgerNames(s.ledger));
    if there == [] then None else Some(Sort(CompareStrings, there))
  }

  lemma {:induction false} ExistingMeans(disk: Disk, dir: string, names: seq<string>)
    requires Ascending(names)
    ensures Ascending(Existing(disk, dir, names))
    ensures forall n :: n in Existing(disk, dir, names) <==> n in names && DebPath(dir, n) in disk
  {
    if names != [] {
      var front, last := names[..|names| - 1], names[|names| - 1];
      FrontAscends(names);
      ExistingMeans(disk, dir, front);
      var before := Existing(disk, dir, front);
      forall i | 0 <= i < |before| ensures CompareStrings(before[i], last) == Less {
        assert before[i] in before;
        LastIsGreatest(names, before[i]);
      }
    }
  }

  lemma AscendingSorts(names: seq<string>)
    requires Ascending(names)
    ensures Sort(CompareStrings, names) == names
  {
    StringOrder();
    SortSorted(CompareStrings, names);
    forall x, y | x in names && y in names && CompareStrings(x, y) == Equal ensures x == y {
      CompareStringsTotal(x, y);
    }
    SortedUnique(CompareStrings, names, Sort(CompareStrings, names));
  }

  /** The repository takes the recorded names that exist, each once and in order, or
      reports an error exactly when there is none. */
  lemma LedgerDebsMeans(dir: string, s: State)
    ensures LedgerDebs(dir, s).None? <==> forall n :: n in LedgerNames(s.ledger) ==> DebPath(dir, n) !in s.disk
    ensures LedgerDebs(dir, s).Some? ==>
              && Ascending(LedgerDebs(dir, s).value)
              && forall n :: n in LedgerDebs(dir, s).value <==> n in LedgerNames(s.ledger) && DebPath(dir, n) in s.disk
  {
    if s.ledger.Some? {
      InOrderMeans(NamesIn(s.ledger.value));
    }
    var there := Existing(s.disk, dir, LedgerNames(s.ledger));
    ExistingMeans(s.disk, dir, LedgerNames(s.ledger));
    AscendingSorts(there);
    EmptyOrMember(there);
  }

  // ----- Runs -----

  /** A call of the build, or a file that something else puts there or takes away. */
  datatype Step =
    | Record(debs: seq<DebPath>, arch: Arch)
    | Write(path: DebPath, contents: Option<DebContents>)
    | Remove(path: DebPath)

  function Take(dir: string, s: State, step: Step): State {
    match step
    case Record(debs, arch) => AfterRecord(dir, s, debs, arch)
    case Write(path, contents) => s.(disk := s.disk[path := contents])
    case Remove(path) => s.(disk := s.disk - {path})
  }

  function Run(dir: string, s: State, steps: seq<Step>): State {
    if steps == [] then s else Take(dir, Run(dir, s, steps[..|steps| - 1]), steps[|steps| - 1])
  }

  /** The names staged by the one step, if it is a call all of whose packages pass. */
  function AdmittedBy(dir: string, s: State, step: Step): seq<string> {
    if step.Record? && AllPass(s.disk, step.debs, step.arch) then StagedNames(dir, step.debs) else []
  }

  function Admitted(dir: string, s: State, steps: seq<Step>): seq<string> {
    if steps == [] then []
    else
      var front := steps[..|steps| - 1];
      Admitted(dir, s, front) + AdmittedBy(dir, Run(dir, s, front), steps[|steps| - 1])
  }

  lemma StepRecords(dir: string, s: State, step: Step, x: string)
    ensures x in LedgerNames(Take(dir, s, step).ledger) <==>
            x in LedgerNames(s.ledger) || x in FlatMap(NamesIn, AdmittedBy(dir, s, step))
  {
    InFlatMap(NamesIn, AdmittedBy(dir, s, step), x);
    if step.Record? && AllPass(s.disk, step.debs, step.arch) {
      var was, staged := LedgerNames(s.ledger), StagedNames(dir, step.debs);
      InPieces(was + staged, x);
      forall n | n in was ensures NamesIn(n) == [n] {
        InOrderMeans(NamesIn(s.ledger.value));
        PiecesAreClean(s.ledger.value, n);
        CleanIsOnePiece(n);
      }
    }
  }

  /** After any run the ledger holds what it held before and the lines of the names that
      admitted calls staged, and nothing else: no rejected call, no file written from
      outside and no removal shows in it. */
  lemma {:induction false} LedgerHoldsTheAdmitted(dir: string, s: State, steps: seq<Step>, x: string)
    ensures x in LedgerNames(Run(dir, s, steps).ledger) <==>
            x in LedgerNames(s.ledger) || x in FlatMap(NamesIn, Admitted(dir, s, steps))
  {
    if steps != [] {
      var front, last := steps[..|steps| - 1], steps[|steps| - 1];
      LedgerHoldsTheAdmitted(dir, s, front, x);
      StepRecords(dir, Run(dir, s, front), last, x);
      FlatMapConcat(NamesIn, Admitted(dir, s, front), AdmittedBy(dir, Run(dir, s, front), last));
    }
  }

  lemma LedgerInOrder(ledger: Option<string>)
    ensures Ascending(LedgerNames(ledger))
    ensures forall n :: n in LedgerNames(ledger) ==> Clean(n)
  {
    if ledger.Some? {
      InOrderMeans(NamesIn(ledger.value));
      forall n | n in LedgerNames(ledger) ensures Clean(n) {
        PiecesAreClean(ledger.value, n);
      }
    }
  }

  lemma CleanPieces(names: seq<string>)
    requires forall n :: n in names ==> Clean(n)
    ensures FlatMap(NamesIn, names) == names
  {
    forall n | n in names ensures NamesIn(n) == [n] {
      CleanIsOnePiece(n);
    }
    FlatMapUnchanged(NamesIn, names);
  }

  /** In a directory that starts without a ledger, the ledger of a run is the sorted set of
      the admitted names exactly when all of those are clean. */
  lemma LedgerIsTheAdmitted(dir: string, disk: Disk, steps: seq<Step>)
    ensures var s := State(disk, None);
            LedgerNames(Run(dir, s, steps).ledger) == InOrder(Admitted(dir, s, steps))
            <==> forall n :: n in Admitted(dir, s, steps) ==> Clean(n)
  {
    var s := State(disk, None);
    var got, names := LedgerNames(Run(dir, s, steps).ledger), Admitted(dir, s, steps);
    LedgerInOrder(Run(dir, s, steps).ledger);
    InOrderMeans(names);
    if forall n :: n in names ==> Clean(n) {
      CleanPieces(names);
      forall x ensures x in got <==> x in InOrder(names) {
        LedgerHoldsTheAdmitted(dir, s, steps, x);
      }
      AscendingUnique(got, InOrder(names));
    }
    if got == InOrder(names) {
      forall n | n in names ensures Clean(n) {
        assert n in got;
      }
    }
  }

  // ----- What the ledger is for -----

  /** A step that leaves recorded files alone and records clean names for one of the
      targets. */
  predicate Orderly(dir: string, s: State, step: Step, targets: set<Arch>) {
    match step
    case Record(debs, a) => a in targets && StagesCleanNames(dir, debs)
    case Write(path, _) => path.dir == dir ==> path.name !in LedgerNames(s.ledger)
    case Remove(_) => true
  }

  predicate StagesCleanNames(dir: string, debs: seq<DebPath>) {
    forall i :: 0 <= i < |debs| && debs[i].dir == dir ==> Clean(debs[i].name)
  }

  ghost predicate OrderlyRun(dir: string, s: State, steps: seq<Step>, targets: set<Arch>) {
    forall i :: 0 <= i < |steps| ==> Orderly(dir, Run(dir, s, steps[..i]), steps[i], targets)
  }

  /** Whether a package passes for one of the targets. */
  ghost predicate PassesForOneOf(disk: Disk, deb: DebPath, targets: set<Arch>) {
    exists a :: a in targets && Passes(disk, deb, a)
  }

  /** Every recorded package that is there keeps every rule for one of the targets. */
  ghost predicate Trusted(dir: string, s: State, targets: set<Arch>) {
    forall n :: n in LedgerNames(s.ledger) && DebPath(dir, n) in s.disk ==> PassesForOneOf(s.disk, DebPath(dir, n), targets)
  }

  lemma StagedNamesMean(dir: string, debs: seq<DebPath>, name: string)
    ensures name in StagedNames(dir, debs) <==> DebPath(dir, name) in debs
  {
    InFlatMap(StagedName(dir), debs, name);
    if DebPath(dir, name) in debs {
      assert name in StagedName(dir)(DebPath(dir, name));
    }
  }

  /** A clean staged name comes from the package of that name. */
  lemma StagedFrom(dir: string, debs: seq<DebPath>, n: string)
    requires StagesCleanNames(dir, debs)
    requires n in FlatMap(NamesIn, StagedNames(dir, debs))
    ensures DebPath(dir, n) in debs
  {
    forall name | name in StagedNames(dir, debs) ensures Clean(name) {
      StagedNamesMean(dir, debs, name);
    }
    CleanPieces(StagedNames(dir, debs));
    StagedNamesMean(dir, debs, n);
  }

  lemma NewNamePasses(dir: string, disk: Disk, debs: seq<DebPath>, arch: Arch, n: string)
    requires AllPass(disk, debs, arch)
    requires StagesCleanNames(dir, debs)
    requires n in FlatMap(NamesIn, StagedNames(dir, debs))
    ensures Passes(disk, DebPath(dir, n), arch)
  {
    StagedFrom(dir, debs, n);
    var i :| 0 <= i < |debs| && debs[i] == DebPath(dir, n);
    assert Passing(disk, arch)(debs[i]);
  }

  lemma StillPasses(a: Disk, b: Disk, deb: DebPath, targets: set<Arch>)
    requires PassesForOneOf(a, deb, targets) && deb in b && b[deb] == a[deb]
    ensures PassesForOneOf(b, deb, targets)
  {
    var t :| t in targets && Passes(a, deb, t);
    SameContentsPass(a, b, deb, t);
  }

  lemma OrderlyStepKeepsTrust(dir: string, s: State, step: Step, targets: set<Arch>)
    requires Trusted(dir, s, targets) && Orderly(dir, s, step, targets)
    ensures Trusted(dir, Take(dir, s, step), targets)
  {
    var t := Take(dir, s, step);
    forall n | n in LedgerNames(t.ledger) && DebPath(dir, n) in t.disk ensures PassesForOneOf(t.disk, DebPath(dir, n), targets) {
      StepRecords(dir, s, step, n);
      if n in LedgerNames(s.ledger) {
        assert DebPath(dir, n) in s.disk && t.disk[DebPath(dir, n)] == s.disk[DebPath(dir, n)];
        StillPasses(s.disk, t.disk, DebPath(dir, n), targets);
      } else {
        NewNamePasses(dir, s.disk, step.debs, step.arch, n);
      }
    }
  }

  lemma OrderlyFront(dir: string, s: State, steps: seq<Step>, targets: set<Arch>)
    requires OrderlyRun(dir, s, steps, targets) && steps != []
    ensures OrderlyRun(dir, s, steps[..|steps| - 1], targets)
    ensures Orderly(dir, Run(dir, s, steps[..|steps| - 1]), steps[|steps| - 1], targets)
  {
    var front := steps[..|steps| - 1];
    forall i | 0 <= i < |front| ensures Orderly(dir, Run(dir, s, front[..i]), front[i], targets) {
      assert front[..i] == steps[..i];
    }
  }

  lemma {:induction false} RunKeepsTrust(dir: string, s: State, steps: seq<Step>, targets: set<Arch>)
    requires Trusted(dir, s, targets) && OrderlyRun(dir, s, steps, targets)
    ensures Trusted(dir, Run(dir, s, steps), targets)
  {
    if steps != [] {
      var front := steps[..|steps| - 1];
      OrderlyFront(dir, s, steps, targets);
      RunKeepsTrust(dir, s, front, targets);
      OrderlyStepKeepsTrust(dir, Run(dir, s, front), steps[|steps| - 1], targets);
    }
  }

  /** Over every run that overwrites no recorded file, whatever else it writes or removes,
      each package the repository takes keeps every rule for one of the targets of the
      calls, and so for a given target exactly when it is meant for that. */
  lemma TakenPackagesPass(dir: string, disk: Disk, steps: seq<Step>, targets: set<Arch>, n: string, arch: Arch)
    requires OrderlyRun(dir, State(disk, None), steps, targets)
    requires var taken := LedgerDebs(dir, Run(dir, State(disk, None), steps)); taken.Some? && n in taken.value
    ensures var (end, deb) := (Run(dir, State(disk, None), steps).disk, DebPath(dir, n));
            && PassesForOneOf(end, deb, targets)
            && (Passes(end, deb, arch) <==> MeantFor(end[deb].value, arch))
  {
    RunKeepsTrust(dir, State(disk, None), steps, targets);
    LedgerDebsMeans(dir, Run(dir, State(disk, None), steps));
    MeantWhenPassing(Run(dir, State(disk, None), steps).disk, DebPath(dir, n), targets, arch);
  }

  lemma MeantWhenPassing(disk: Disk, deb: DebPath, targets: set<Arch>, arch: Arch)
    requires PassesForOneOf(disk, deb, targets)
    ensures deb in disk && disk[deb].Some?
    ensures Passes(disk, deb, arch) <==> MeantFor(disk[deb].value, arch)
  {
    var a :| a in targets && Passes(disk, deb, a);
    PassesForAnother(disk[deb].value, a, arch);
  }

  // ----- Exactly which taken packages still pass -----

  /** What a run last did to a file from outside: wrote it, removed it, or nothing. */
  datatype Touch = Untouched | Written(contents: Option<DebContents>) | Removed

  function LastTouch(path: DebPath, steps: seq<Step>): Touch {
    if steps == [] then Untouched
    else
      var before := LastTouch(path, steps[..|steps| - 1]);
      match steps[|steps| - 1]
      case Record(_, _) => before
      case Write(p, contents) => if p == path then Written(contents) else before
      case Remove(p) => if p == path then Removed else before
  }

  predicate ContentsPass(contents: Option<DebContents>, arch: Arch) {
    contents.Some? && Findings(contents.value, arch) == []
  }

  /** Whether a package was last written with contents that break a rule. */
  predicate Spoiled(path: DebPath, steps: seq<Step>, arch: Arch) {
    var touch := LastTouch(path, steps);
    touch.Written? && !ContentsPass(touch.contents, arch)
  }

  /** A run whose calls stage clean names. */
  predicate StagesClean(dir: string, steps: seq<Step>) {
    forall i :: 0 <= i < |steps| && steps[i].Record? ==> StagesCleanNames(dir, steps[i].debs)
  }

  /** The disk holds what was last written, and what it held at first where nothing was. */
  lemma {:induction false} DiskIsLastTouch(dir: string, s: State, steps: seq<Step>, path: DebPath)
    ensures var (disk, touch) := (Run(dir, s, steps).disk, LastTouch(path, steps));
            match touch
            case Untouched => (path in disk <==> path in s.disk) && (path in disk ==> disk[path] == s.disk[path])
            case Written(contents) => path in disk && disk[path] == contents
            case Removed => path !in disk
  {
    if steps != [] {
      DiskIsLastTouch(dir, s, steps[..|steps| - 1], path);
    }
  }

  /** A name that a step brings into the ledger is that of a package that passes for the
      target of the call. */
  lemma NewInLedger(dir: string, before: State, last: Step, n: string)
    requires last.Record? ==> StagesCleanNames(dir, last.debs)
    requires n in LedgerNames(Take(dir, before, last).ledger) && n !in LedgerNames(before.ledger)
    ensures last.Record? && Passes(before.disk, DebPath(dir, n), last.arch)
  {
    StepRecords(dir, before, last, n);
    NewNamePasses(dir, before.disk, last.debs, last.arch, n);
  }

  lemma FrontIsUntouched(dir: string, steps: seq<Step>, path: DebPath)
    requires steps != [] && StagesClean(dir, steps) && LastTouch(path, steps).Untouched?
    ensures StagesClean(dir, steps[..|steps| - 1]) && LastTouch(path, steps[..|steps| - 1]).Untouched?
    ensures var last := steps[|steps| - 1]; last.Record? ==> StagesCleanNames(dir, last.debs)
  {
  }

  const TARGETS: set<Arch> := {Arm64, Armv7, Riscv64}

  lemma NewUntouchedPasses(dir: string, disk: Disk, front: seq<Step>, last: Step, n: string)
    requires last.Record? ==> StagesCleanNames(dir, last.debs)
    requires var before := Run(dir, State(disk, None), front);
             n in LedgerNames(Take(dir, before, last).ledger) && n !in LedgerNames(before.ledger)
    requires LastTouch(DebPath(dir, n), front).Untouched?
    ensures PassesForOneOf(disk, DebPath(dir, n), TARGETS)
  {
    var before := Run(dir, State(disk, None), front);
    NewInLedger(dir, before, last, n);
    UntouchedContents(dir, State(disk, None), front, DebPath(dir, n));
    SameContentsPass(before.disk, disk, DebPath(dir, n), last.arch);
    OneOfAll(disk, DebPath(dir, n), last.arch);
  }

  lemma OneOfAll(disk: Disk, deb: DebPath, arch: Arch)
    requires Passes(disk, deb, arch)
    ensures PassesForOneOf(disk, deb, TARGETS)
  {
    assert arch in TARGETS;
  }

  /** A recorded package that nothing touched was there from the start, and passed for the
      target it was recorded for. */
  lemma {:induction false} UntouchedPasses(dir: string, disk: Disk, steps: seq<Step>, n: string)
    requires StagesClean(dir, steps)
    requires n in LedgerNames(Run(dir, State(disk, None), steps).ledger)
    requires LastTouch(DebPath(dir, n), steps).Untouched?
    ensures PassesForOneOf(disk, DebPath(dir, n), TARGETS)
  {
    if steps != [] {
      var front, last := steps[..|steps| - 1], steps[|steps| - 1];
      var before := Run(dir, State(disk, None), front);
      FrontIsUntouched(dir, steps, DebPath(dir, n));
      if n in LedgerNames(before.ledger) {
        UntouchedPasses(dir, disk, front, n);
      } else {
        NewUntouchedPasses(dir, disk, front, last, n);
      }
    }
  }

  lemma UntouchedContents(dir: string, s: State, steps: seq<Step>, path: DebPath)
    requires LastTouch(path, steps).Untouched? && path in Run(dir, s, steps).disk
    ensures path in s.disk && s.disk[path] == Run(dir, s, steps).disk[path]
  {
    DiskIsLastTouch(dir, s, steps, path);
  }

  lemma SameContentsPass(a: Disk, b: Disk, deb: DebPath, arch: Arch)
    requires Passes(a, deb, arch) && deb in b && b[deb] == a[deb]
    ensures Passes(b, deb, arch)
  {
  }

  /** Whether a package that lies untouched where it was found is meant for the target. */
  predicate UntouchedSuits(disk: Disk, path: DebPath, steps: seq<Step>, arch: Arch) {
    LastTouch(path, steps).Untouched? ==> path in disk && disk[path].Some? && MeantFor(disk[path].value, arch)
  }

  /** Over every run, for whatever targets, a package the repository takes keeps every rule
      for a target exactly when what was last written to it does, or, where nothing was
      written, when it is meant for that target: a package recorded for another one is taken
      all the same. */
  lemma TakenPackagePassesExactly(dir: string, disk: Disk, steps: seq<Step>, arch: Arch, n: string)
    requires StagesClean(dir, steps)
    requires var taken := LedgerDebs(dir, Run(dir, State(disk, None), steps)); taken.Some? && n in taken.value
    ensures Passes(Run(dir, State(disk, None), steps).disk, DebPath(dir, n), arch)
       <==> !Spoiled(DebPath(dir, n), steps, arch) && UntouchedSuits(disk, DebPath(dir, n), steps, arch)
  {
    var s := Run(dir, State(disk, None), steps);
    LedgerDebsMeans(dir, s);
    DiskIsLastTouch(dir, State(disk, None), steps, DebPath(dir, n));
    if LastTouch(DebPath(dir, n), steps).Untouched? {
      UntouchedPasses(dir, disk, steps, n);
      MeantWhenPassing(disk, DebPath(dir, n), TARGETS, arch);
    }
  }

  /** A run all of whose calls are for one target. */
  predicate ForOneTarget(steps: seq<Step>, arch: Arch) {
    forall i :: 0 <= i < |steps| && steps[i].Record? ==> steps[i].arch == arch
  }

  /** In a run for one target what lies untouched is meant for it. */
  lemma {:induction false} OneTargetSuits(dir: string, disk: Disk, steps: seq<Step>, arch: Arch, n: string)
    requires StagesClean(dir, steps) && ForOneTarget(steps, arch)
    requires n in LedgerNames(Run(dir, State(disk, None), steps).ledger)
    ensures UntouchedSuits(disk, DebPath(dir, n), steps, arch)
  {
    if steps != [] && LastTouch(DebPath(dir, n), steps).Untouched? {
      var front, last := steps[..|steps| - 1], steps[|steps| - 1];
      var before := Run(dir, State(disk, None), front);
      FrontIsUntouched(dir, steps, DebPath(dir, n));
      if n in LedgerNames(before.ledger) {
        OneTargetSuits(dir, disk, front, arch, n);
      } else {
        NewSuits(dir, disk, front, last, n);
      }
    }
  }

  lemma NewSuits(dir: string, disk: Disk, front: seq<Step>, last: Step, n: string)
    requires last.Record? ==> StagesCleanNames(dir, last.debs)
    requires var before := Run(dir, State(disk, None), front);
             n in LedgerNames(Take(dir, before, last).ledger) && n !in LedgerNames(before.ledger)
    requires LastTouch(DebPath(dir, n), front).Untouched?
    ensures last.Record? && DebPath(dir, n) in disk && disk[DebPath(dir, n)].Some?
    ensures MeantFor(disk[DebPath(dir, n)].value, last.arch)
  {
    var before := Run(dir, State(disk, None), front);
    NewInLedger(dir, before, last, n);
    UntouchedContents(dir, State(disk, None), front, DebPath(dir, n));
    PassingIsMeantFor(disk[DebPath(dir, n)].value, last.arch);
  }

  /** In a run for one target, a package the repository takes keeps every rule exactly when
      nothing last wrote contents to it that break one: built again and again, or removed
      and put back, it passes if what was put there does. */
  lemma TakenPackagePassesUnlessSpoiled(dir: string, disk: Disk, steps: seq<Step>, arch: Arch, n: string)
    requires StagesClean(dir, steps) && ForOneTarget(steps, arch)
    requires var taken := LedgerDebs(dir, Run(dir, State(disk, None), steps)); taken.Some? && n in taken.value
    ensures Passes(Run(dir, State(disk, None), steps).disk, DebPath(dir, n), arch) <==> !Spoiled(DebPath(dir, n), steps, arch)
  {
    TakenPackagePassesExactly(dir, disk, steps, arch, n);
    LedgerDebsMeans(dir, Run(dir, State(disk, None), steps));
    OneTargetSuits(dir, disk, steps, arch, n);
  }

  lemma TwoSteps(dir: string, s: State, a: Step, b: Step)
    ensures Run(dir, s, [a, b]) == Take(dir, Take(dir, s, a), b)
  {
    var one, two := [a], [a, b];
    assert one[..|one| - 1] == [] && two[..|two| - 1] == one;
    assert Run(dir, s, one) == Take(dir, Run(dir, s, []), a);
    assert Run(dir, s, two) == Take(dir, Run(dir, s, one), b);
  }

  lemma OneNameReads(name: string)
    requires Clean(name)
    ensures LedgerNames(Some(LedgerText([name]))) == [name]
  {
    LedgerReads([name]);
    SortedAgain([name]);
  }

  lemma RecordedAlone(dir: string, disk: Disk, name: string, arch: Arch)
    requires Clean(name) && Passes(disk, DebPath(dir, name), arch)
    ensures LedgerNames(Take(dir, State(disk, None), Record([DebPath(dir, name)], arch)).ledger) == [name]
  {
    var debs := [DebPath(dir, name)];
    FlatMapOne(StagedName(dir), debs[0]);
    assert StagedNames(dir, debs) == [name];
    assert LedgerNames(None) + [name] == [name];
    assert AllPass(disk, debs, arch) by {
      assert Passing(disk, arch)(debs[0]);
    }
    OneNameReads(name);
  }

  /** The names are what is recorded, not the bytes: a package replaced after it was
      admitted is still taken. */
  lemma ReplacedPackageIsTaken(dir: string, disk: Disk, name: string, arch: Arch, contents: Option<DebContents>)
    requires Clean(name) && Passes(disk, DebPath(dir, name), arch)
    ensures var deb := DebPath(dir, name);
            var s := Run(dir, State(disk, None), [Record([deb], arch), Write(deb, contents)]);
            LedgerDebs(dir, s) == Some([name]) && s.disk[deb] == contents
  {
    var deb := DebPath(dir, name);
    var first, second := Record([deb], arch), Write(deb, contents);
    TwoSteps(dir, State(disk, None), first, second);
    RecordedAlone(dir, disk, name, arch);
    var s := Take(dir, Take(dir, State(disk, None), first), second);
    assert LedgerNames(s.ledger) == [name];
    assert [name][..0] == [];
    assert Existing(s.disk, dir, [name]) == [name];
    AscendingSorts([name]);
  }

  lemma TakenAlone(dir: string, disk: Disk, name: string, arch: Arch)
    requires Clean(name) && Passes(disk, DebPath(dir, name), arch)
    ensures LedgerDebs(dir, Take(dir, State(disk, None), Record([DebPath(dir, name)], arch))) == Some([name])
  {
    var s := Take(dir, State(disk, None), Record([DebPath(dir, name)], arch));
    RecordedAlone(dir, disk, name, arch);
    assert [name][..0] == [];
    assert Existing(s.disk, dir, [name]) == [name];
    AscendingSorts([name]);
  }

  lemma OneStep(dir: string, s: State, a: Step)
    ensures Run(dir, s, [a]) == Take(dir, s, a)
    ensures a.Record? ==> forall path :: LastTouch(path, [a]).Untouched?
  {
    assert [a][..0] == [];
  }

  /** A package recorded for one target is taken for every other in the same directory, with
      nothing written from outside, though it breaks a rule there unless it is meant for
      that one too. */
  lemma OtherTargetsPackageIsTaken(dir: string, name: string, contents: DebContents, recorded: Arch, arch: Arch)
    requires Clean(name) && Findings(contents, recorded) == [] && !MeantFor(contents, arch)
    ensures var deb := DebPath(dir, name);
            var steps := [Record([deb], recorded)];
            var s := Run(dir, State(map[deb := Some(contents)], None), steps);
            LedgerDebs(dir, s) == Some([name]) && !Spoiled(deb, steps, arch) && !Passes(s.disk, deb, arch)
  {
    var deb := DebPath(dir, name);
    var disk: Disk := map[deb := Some(contents)];
    PassesForAnother(contents, recorded, arch);
    OneStep(dir, State(disk, None), Record([deb], recorded));
    TakenAlone(dir, disk, name, recorded);
  }
}
