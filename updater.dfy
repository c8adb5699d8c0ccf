/** The updater's decisions over one cloned repository: whether the tracker is
    already there, which manifest and which Python file get edited, and what
    the run reports. The repository is a value: relative paths ("a/b.py") to
    contents, the order in which the directory walk meets the files, the byte
    sizes getsize reports, and the files whose reading fails. */
module Updater {
  import opened Strings
  import opened Patterns
  import opened Manifests
  import opened EntryPatch

  datatype Repo = Repo(
    files: map<Text, Text>,   // the files that can be opened, with their text
    order: seq<Text>,         // walk order (os.listdir order at the root)
    size: map<Text, nat>,     // os.path.getsize; a missing entry is a failure
    unreadable: set<Text>)    // opening or decoding raises

  /** Every walked path is a file and every file is walked. */
  predicate WellFormed(r: Repo) {
    && (forall p :: p in r.files ==> p in r.order)
    && (forall k :: 0 <= k < |r.order| ==> r.order[k] in r.files)
  }

  predicate Readable(r: Repo, p: Text) {
    p in r.files && p !in r.unreadable
  }

  // ---------------------------------------------------------------------
  // Paths

  predicate AtRoot(p: Text) {
    '/' !in p
  }

  /** Some directory on the path starts with '.'; the walk prunes it. */
  predicate InHiddenDir(p: Text) {
    exists i :: 0 <= i < |p| && p[i] == '.' && (i == 0 || p[i - 1] == '/') && '/' in p[i..]
  }

  /** A file both walks look at: a .py file outside hidden directories. */
  predicate Scanned(p: Text) {
    EndsWith(p, ".py") && !InHiddenDir(p)
  }

  lemma RootIsNotHidden(p: Text)
    requires AtRoot(p)
    ensures !InHiddenDir(p)
  {
    forall i | 0 <= i < |p| ensures '/' !in p[i..] {
      forall x | 0 <= x < |p[i..]| ensures p[i..][x] != '/' {
        assert p[i..][x] == p[i + x];
      }
    }
  }

  // ---------------------------------------------------------------------
  // Detection: check_tracker_exists and its two checks

  const DetectedManifests: seq<Text> :=
    ["requirements.txt", "requirements-dev.txt", "setup.py", "pyproject.toml", "Pipfile", "poetry.lock"]

  /** check_dependency_files: a readable manifest mentions the package. */
  predicate ManifestHasTracker(r: Repo) {
    exists k :: 0 <= k < |DetectedManifests| && Readable(r, DetectedManifests[k])
      && Contains(r.files[DetectedManifests[k]], PackageName)
  }

  /** check_tracker_imports: a readable scanned file matches the import pattern. */
  predicate SourceHasTracker(r: Repo) {
    exists k :: 0 <= k < |r.order| && Scanned(r.order[k]) && Readable(r, r.order[k])
      && MentionsTrackerImport(r.files[r.order[k]])
  }

  predicate HasTracker(r: Repo) {
    ManifestHasTracker(r) || SourceHasTracker(r)
  }

  // ---------------------------------------------------------------------
  // Writes

  datatype Outcome = Done(changed: bool) | Raised
  datatype Step = Step(outcome: Outcome, repo: Repo)

  /** Writing p with encoding='utf-8': the text, its size in bytes, and a
      place in the walk when p is new (at the end; see README). */
  function WriteFile(r: Repo, p: Text, content: Text): (r': Repo)
    ensures r'.files == r.files[p := content]
  {
    Repo(r.files[p := content],
      if p in r.files then r.order else r.order + [p],
      r.size[p := Utf8Len(content)],
      r.unreadable - {p})
  }

  /** Only p may differ between the two repositories' files. */
  ghost predicate SameExcept(r: Repo, r': Repo, p: Text) {
    forall q :: q != p ==> (q in r'.files <==> q in r.files) && (q in r.files ==> r'.files[q] == r.files[q])
  }

  lemma WriteFileKeepsWellFormed(r: Repo, p: Text, content: Text)
    requires WellFormed(r)
    ensures WellFormed(WriteFile(r, p, content))
    ensures SameExcept(r, WriteFile(r, p, content), p)
    ensures WriteFile(r, p, content).unreadable <= r.unreadable
  {
  }

  /** An edit that returns None leaves the file alone and reports False;
      Some(c) writes c and reports True. */
  function ApplyEdit(r: Repo, p: Text, edit: Option<Text>): (s: Step)
    ensures s.outcome == Done(edit.Some?)
  {
    match edit
    case None => Step(Done(false), r)
    case Some(c) => Step(Done(true), WriteFile(r, p, c))
  }

  // ---------------------------------------------------------------------
  // add_dependency

  const RequirementsFile: Text := "requirements.txt"
  const PatchedManifests: seq<Text> := [RequirementsFile, "pyproject.toml", "setup.py", "Pipfile"]

  /** The index of the first name at or after i that exists. */
  function FirstPresent(r: Repo, names: seq<Text>, i: nat): (k: Option<nat>)
    requires i <= |names|
    ensures k.Some? ==> i <= k.value < |names| && names[k.value] in r.files
    decreases |names| - i
  {
    if i == |names| then None
    else if names[i] in r.files then Some(i)
    else FirstPresent(r, names, i + 1)
  }

  lemma {:induction false} FirstPresentSkips(r: Repo, names: seq<Text>, i: nat)
    requires i <= |names|
    ensures forall j :: i <= j < |names| && (FirstPresent(r, names, i).None? || j < FirstPresent(r, names, i).value)
               ==> names[j] !in r.files
    decreases |names| - i
  {
    if i < |names| && names[i] !in r.files {
      FirstPresentSkips(r, names, i + 1);
    }
  }

  /** The editor for PatchedManifests[k]. */
  function ManifestEdit(k: nat, content: Text): (r: Option<Text>)
    requires k < |PatchedManifests|
    ensures r.None? <==> || Contains(content, PackageName)
                         || (k == 1 && !Contains(content, PoetryHeader))
                         || (k == 2 && FindListFrom(content, 0).None?)
                         || (k == 3 && !Contains(content, PipfileHeader))
  {
    if k == 0 then RequirementsEdit(content)
    else if k == 1 then PyprojectEdit(content)
    else if k == 2 then SetupEdit(content)
    else PipfileEdit(content)
  }

  /** The editor of the k-th manifest run on the repository: reading an
      undecodable file raises, as the editors do not catch it. */
  function ManifestStep(r: Repo, k: nat): (s: Step)
    requires k < |PatchedManifests| && PatchedManifests[k] in r.files
    ensures s.outcome == Raised <==> PatchedManifests[k] in r.unreadable
    ensures s.outcome != Done(true) ==> s.repo == r
    ensures s.outcome == Done(true) ==>
      && ManifestEdit(k, r.files[PatchedManifests[k]]).Some?
      && s.repo.files == r.files[PatchedManifests[k] := ManifestEdit(k, r.files[PatchedManifests[k]]).value]
  {
    var p := PatchedManifests[k];
    if p in r.unreadable then Step(Raised, r)
    else ApplyEdit(r, p, ManifestEdit(k, r.files[p]))
  }

  /** add_dependency: edit the first manifest present, or create
      requirements.txt. */
  function DependencyPatch(r: Repo): Step {
    match FirstPresent(r, PatchedManifests, 0)
    case None => Step(Done(true), WriteFile(r, RequirementsFile, RequirementLine))
    case Some(k) => ManifestStep(r, k)
  }

  // ---------------------------------------------------------------------
  // add_initialization

  const EntryPoints: seq<Text> := ["main.py", "app.py", "__main__.py", "run.py"]
  const MainFile: Text := "main.py"

  /** root_python_files: .py entries of the root listing not starting with "setup". */
  function RootPyFiles(order: seq<Text>): (fs: seq<Text>)
    ensures forall p :: p in fs ==> p in order && AtRoot(p) && EndsWith(p, ".py") && !StartsWith(p, "setup")
  {
    if order == [] then []
    else
      var p := order[0];
      var rest := RootPyFiles(order[1..]);
      if AtRoot(p) && EndsWith(p, ".py") && !StartsWith(p, "setup") then [p] + rest else rest
  }

  /** The first candidate that exists. */
  function FirstExisting(r: Repo, cands: seq<Text>): (p: Option<Text>)
    ensures p.Some? ==> p.value in cands && p.value in r.files
  {
    if cands == [] then None
    else if cands[0] in r.files then Some(cands[0])
    else FirstExisting(r, cands[1..])
  }

  datatype Best = Best(file: Option<Text>, size: nat)

  /** The running largest_file / largest_size after the first n walked files:
      a scanned file replaces the best only when strictly larger. */
  function LargestAmong(r: Repo, n: nat): (b: Best)
    requires n <= |r.order|
  {
    if n == 0 then Best(None, 0)
    else
      var b := LargestAmong(r, n - 1);
      var p := r.order[n - 1];
      if Scanned(p) && p in r.size && r.size[p] > b.size then Best(Some(p), r.size[p]) else b
  }

  function LargestPy(r: Repo): Option<Text> {
    LargestAmong(r, |r.order|).file
  }

  /** The code the fallback main.py holds. */
  const ScaffoldHead: Text := "\"\"\"Main entry point with dbdemos tracker initialization.\"\"\"\n\n"
  const ScaffoldTail: Text :=
    "\n\ndef main():\n    \"\"\"Main function.\"\"\"\n    dbdemos_tracker.initialize()\n"
    + "    print(\"Application started with dbdemos tracker\")\n\n"
    + "if __name__ == \"__main__\":\n    main()\n"
  const MainScaffold: Text := ScaffoldHead + ImportLine + ScaffoldTail

  /** add_tracker_init_to_file: a file that cannot be read reports False. */
  function InitFileStep(r: Repo, p: Text): (s: Step)
    ensures s.outcome.Done?
  {
    if !Readable(r, p) then Step(Done(false), r)
    else ApplyEdit(r, p, InitEdit(r.files[p]))
  }

  /** add_initialization: the first existing entry point or root .py file,
      else the largest scanned .py file, else a new main.py. */
  function InitPatch(r: Repo): (s: Step)
    ensures s.outcome.Done?
  {
    match FirstExisting(r, EntryPoints + RootPyFiles(r.order))
    case Some(p) => InitFileStep(r, p)
    case None =>
      match LargestPy(r)
      case Some(p) => InitFileStep(r, p)
      case None => Step(Done(true), WriteFile(r, MainFile, MainScaffold))
  }

  // ---------------------------------------------------------------------
  // add_tracker_to_repo and the run over one repository

  /** Both patchers run; the result is their OR. An exception in the first
      ends the step. */
  function TrackerPatch(r: Repo): Step {
    var d := DependencyPatch(r);
    match d.outcome
    case Raised => d
    case Done(a) =>
      var i := InitPatch(d.repo);
      Step(Done(a || i.outcome.changed), i.repo)
  }

  datatype Verdict = AlreadyTracked | NoChanges | ReadyToPropose | Failed
  datatype Run = Run(verdict: Verdict, repo: Repo)

  /** process_single_repository without git and GitHub: stop when the tracker
      is found; otherwise patch, and propose the change only if one was made. */
  function Process(r: Repo): (run: Run)
    ensures run.verdict == AlreadyTracked <==> HasTracker(r)
    ensures run.verdict == AlreadyTracked ==> run.repo == r
  {
    if HasTracker(r) then Run(AlreadyTracked, r)
    else
      var s := TrackerPatch(r);
      match s.outcome
      case Raised => Run(Failed, s.repo)
      case Done(changed) => Run(if changed then ReadyToPropose else NoChanges, s.repo)
  }

  // ---------------------------------------------------------------------
  // Properties of add_dependency

  /** No patched manifest exists: requirements.txt is created holding exactly
      the package line, and nothing else changes. */
  lemma DependencyPatchCreatesRequirements(r: Repo)
    requires forall k :: 0 <= k < |PatchedManifests| ==> PatchedManifests[k] !in r.files
    ensures DependencyPatch(r).outcome == Done(true)
    ensures DependencyPatch(r).repo.files == r.files[RequirementsFile := PackageName + "\n"]
  {
  }

  /** The k-th manifest is the first present: it is the only file edited,
      with its own editor; an undecodable one makes the step raise. */
  lemma DependencyPatchEditsFirstPresent(r: Repo, k: nat)
    requires k < |PatchedManifests| && PatchedManifests[k] in r.files
    requires forall j :: 0 <= j < k ==> PatchedManifests[j] !in r.files
    ensures var s := DependencyPatch(r); var p := PatchedManifests[k];
      && (p in r.unreadable ==> s == Step(Raised, r))
      && (p !in r.unreadable ==>
            && s.outcome == Done(ManifestEdit(k, r.files[p]).Some?)
            && SameExcept(r, s.repo, p)
            && s.repo.files[p] == (match ManifestEdit(k, r.files[p]) case Some(c) => c case None => r.files[p]))
  {
    FirstPresentSkips(r, PatchedManifests, 0);
    assert FirstPresent(r, PatchedManifests, 0) == Some(k);
  }

  lemma DependencyPatchKeepsWellFormed(r: Repo)
    requires WellFormed(r)
    ensures WellFormed(DependencyPatch(r).repo)
    ensures DependencyPatch(r).repo.unreadable <= r.unreadable
    ensures r.unreadable == {} ==> DependencyPatch(r).outcome.Done?
  {
    match FirstPresent(r, PatchedManifests, 0)
    case None =>
      WriteFileKeepsWellFormed(r, RequirementsFile, RequirementLine);
    case Some(k) =>
      var p := PatchedManifests[k];
      if p !in r.unreadable {
        match ManifestEdit(k, r.files[p])
        case None =>
        case Some(c) => WriteFileKeepsWellFormed(r, p, c);
      }
  }

  /** The file add_dependency creates already names the package, so the
      presence guard of add_to_requirements turns it away. */
  lemma RequirementLineIsSettled()
    ensures RequirementsEdit(RequirementLine) == None
  {
    ContainsPrefix(PackageName, "\n");
  }

  /** Every editor starts with the same presence guard. */
  lemma ManifestEditSeesName(k: nat, content: Text)
    requires k < |PatchedManifests| && Contains(content, PackageName)
    ensures ManifestEdit(k, content) == None
  {
  }

  /** The search depends only on which names exist. */
  lemma {:induction false} FirstPresentSameNames(r: Repo, r': Repo, names: seq<Text>, i: nat)
    requires i <= |names|
    requires forall j :: 0 <= j < |names| ==> (names[j] in r.files <==> names[j] in r'.files)
    ensures FirstPresent(r, names, i) == FirstPresent(r', names, i)
    decreases |names| - i
  {
    if i < |names| {
      FirstPresentSameNames(r, r', names, i + 1);
    }
  }

  /** A second add_dependency on the result of the first finds the same
      manifest (or the requirements.txt the first created). It reports no
      change whenever that manifest names the package, which is always the
      case after requirements.txt and setup.py, and after a step that changed
      nothing. Only the header editors' substring-only rewrite reports True
      again. */
  lemma DependencyPatchTwice(r: Repo)
    requires DependencyPatch(r).outcome.Done?
    ensures var d := DependencyPatch(r).repo; var k := FirstPresent(d, PatchedManifests, 0);
      && k.Some?
      && (FirstPresent(r, PatchedManifests, 0).Some? ==> k == FirstPresent(r, PatchedManifests, 0))
      && (Contains(d.files[PatchedManifests[k.value]], PackageName) ==> DependencyPatch(d).outcome == Done(false))
      && (k.value == 0 || k.value == 2 || DependencyPatch(r).outcome == Done(false) ==>
            DependencyPatch(d).outcome == Done(false))
  {
    var d := DependencyPatch(r).repo;
    match FirstPresent(r, PatchedManifests, 0)
    case None =>
      assert FirstPresent(d, PatchedManifests, 0) == Some(0);
      RequirementLineIsSettled();
    case Some(k) =>
      var p := PatchedManifests[k];
      FirstPresentSameNames(r, d, PatchedManifests, 0);
      match ManifestEdit(k, r.files[p])
      case None =>
        assert d == r;
      case Some(c) =>
        assert d.files[p] == c;
        if k == 0 {
          assert Contains(c, PackageName);
        } else if k == 2 {
          SetupEditAddsName(r.files[p]);
        }
        if Contains(c, PackageName) {
          ManifestEditSeesName(k, c);
        }
  }

  // ---------------------------------------------------------------------
  // Properties of add_initialization

  lemma {:induction false} FirstExistingIs(r: Repo, cands: seq<Text>, k: nat)
    requires k < |cands| && cands[k] in r.files
    requires forall j :: 0 <= j < k ==> cands[j] !in r.files
    ensures FirstExisting(r, cands) == Some(cands[k])
  {
    if k > 0 {
      assert cands[0] !in r.files;
      FirstExistingIs(r, cands[1..], k - 1);
    }
  }

  lemma {:induction false} FirstExistingNone(r: Repo, cands: seq<Text>)
    requires forall j :: 0 <= j < |cands| ==> cands[j] !in r.files
    ensures FirstExisting(r, cands) == None
  {
    if cands != [] {
      FirstExistingNone(r, cands[1..]);
    }
  }

  lemma {:induction false} FirstExistingMissesAll(r: Repo, cands: seq<Text>)
    requires FirstExisting(r, cands) == None
    ensures forall j :: 0 <= j < |cands| ==> cands[j] !in r.files
  {
    if cands != [] {
      FirstExistingMissesAll(r, cands[1..]);
    }
  }

  /** Candidates earlier in the list win over later ones. */
  lemma {:induction false} FirstExistingConcat(r: Repo, a: seq<Text>, b: seq<Text>)
    ensures FirstExisting(r, a + b) ==
      if FirstExisting(r, a).Some? then FirstExisting(r, a) else FirstExisting(r, b)
  {
    if a != [] {
      assert (a + b)[1..] == a[1..] + b;
      FirstExistingConcat(r, a[1..], b);
    } else {
      assert a + b == b;
    }
  }

  predicate IsRootPy(p: Text) {
    AtRoot(p) && EndsWith(p, ".py") && !StartsWith(p, "setup")
  }

  /** The first root .py file in listing order heads the candidate list. */
  lemma {:induction false} RootPyFilesHead(order: seq<Text>, j: nat)
    requires j < |order| && IsRootPy(order[j])
    requires forall k :: 0 <= k < j ==> !IsRootPy(order[k])
    ensures RootPyFiles(order) != [] && RootPyFiles(order)[0] == order[j]
  {
    if j > 0 {
      assert !IsRootPy(order[0]);
      RootPyFilesHead(order[1..], j - 1);
    }
  }

  lemma {:induction false} RootPyFilesEmpty(order: seq<Text>)
    requires forall k :: 0 <= k < |order| ==> !IsRootPy(order[k])
    ensures RootPyFiles(order) == []
  {
    if order != [] {
      assert !IsRootPy(order[0]);
      RootPyFilesEmpty(order[1..]);
    }
  }

  /** The comprehension keeps listing order: the files of a concatenated
      listing are those of its parts, in turn. */
  lemma {:induction false} RootPyFilesAppend(a: seq<Text>, b: seq<Text>)
    ensures RootPyFiles(a + b) == RootPyFiles(a) + RootPyFiles(b)
  {
    if a == [] {
      assert a + b == b;
    } else {
      assert (a + b)[0] == a[0];
      assert (a + b)[1..] == a[1..] + b;
      RootPyFilesAppend(a[1..], b);
    }
  }

  /** Every root .py file of the listing not starting with "setup" is kept. */
  lemma {:induction false} RootPyFilesComplete(order: seq<Text>)
    ensures forall p :: p in order && IsRootPy(p) ==> p in RootPyFiles(order)
  {
    if order != [] {
      RootPyFilesComplete(order[1..]);
      assert forall p :: p in order ==> p == order[0] || p in order[1..];
    }
  }

  /** Both walks see the same sizes for every scanned file. */
  ghost predicate SameScannedSizes(r: Repo, r': Repo) {
    forall q :: Scanned(q) ==> (q in r'.size <==> q in r.size) && (q in r.size ==> r'.size[q] == r.size[q])
  }

  lemma {:induction false} LargestAmongAgree(r: Repo, r': Repo, n: nat)
    requires n <= |r.order| && n <= |r'.order|
    requires forall k :: 0 <= k < n ==> r'.order[k] == r.order[k]
    requires SameScannedSizes(r, r')
    ensures LargestAmong(r', n) == LargestAmong(r, n)
  {
    if n > 0 {
      LargestAmongAgree(r, r', n - 1);
    }
  }

  /** A file that is not scanned, placed at j, does not move the running
      maximum. */
  lemma {:induction false} LargestAmongShift(r: Repo, r': Repo, j: nat, p: Text, n: nat)
    requires j <= n <= |r.order|
    requires r'.order == r.order[..j] + [p] + r.order[j..] && !Scanned(p)
    requires SameScannedSizes(r, r')
    ensures LargestAmong(r', n + 1) == LargestAmong(r, n)
    decreases n
  {
    if n == j {
      LargestAmongAgree(r, r', j);
      assert r'.order[j] == p;
    } else {
      LargestAmongShift(r, r', j, p, n - 1);
      assert r'.order[n] == r.order[n - 1];
    }
  }

  /** A new file that is not a .py file changes neither the root .py files
      nor the largest .py file, wherever the walk meets it. */
  lemma CreatedFilePositionIrrelevant(r: Repo, r': Repo, j: nat, p: Text)
    requires j <= |r.order| && r'.order == r.order[..j] + [p] + r.order[j..]
    requires !EndsWith(p, ".py") && SameScannedSizes(r, r')
    ensures RootPyFiles(r'.order) == RootPyFiles(r.order)
    ensures LargestPy(r') == LargestPy(r)
  {
    RootPyFilesSkip(r.order[..j], p, r.order[j..]);
    assert r.order[..j] + r.order[j..] == r.order;
    LargestAmongShift(r, r', j, p, |r.order|);
  }

  lemma RootPyFilesSkip(a: seq<Text>, p: Text, b: seq<Text>)
    requires !EndsWith(p, ".py")
    ensures RootPyFiles(a + [p] + b) == RootPyFiles(a + b)
  {
    RootPyFilesAppend(a + [p], b);
    RootPyFilesAppend(a, [p]);
    RootPyFilesAppend(a, b);
    assert RootPyFiles([p]) == [] by {
      assert [p][1..] == [];
    }
  }

  /** The requirements.txt that add_dependency may create before
      add_initialization runs leaves the initialization's choices as they
      were. */
  lemma RequirementsCreationKeepsInitChoice(r: Repo, c: Text)
    requires RequirementsFile !in r.files
    ensures var r' := WriteFile(r, RequirementsFile, c);
      RootPyFiles(r'.order) == RootPyFiles(r.order) && LargestPy(r') == LargestPy(r)
  {
    var r' := WriteFile(r, RequirementsFile, c);
    assert r'.order == r.order[..|r.order|] + [RequirementsFile] + r.order[|r.order|..];
    CreatedFilePositionIrrelevant(r, r', |r.order|, RequirementsFile);
  }

  /** Stage 1: the first existing conventional entry point is the target. */
  lemma InitPicksEntryPoint(r: Repo, k: nat)
    requires k < |EntryPoints| && EntryPoints[k] in r.files
    requires forall j :: 0 <= j < k ==> EntryPoints[j] !in r.files
    ensures InitPatch(r) == InitFileStep(r, EntryPoints[k])
  {
    FirstExistingIs(r, EntryPoints, k);
    FirstExistingConcat(r, EntryPoints, RootPyFiles(r.order));
  }

  /** Stage 2: with no entry point, the first root .py file in listing order
      that does not start with "setup" is the target. */
  lemma InitPicksRootFile(r: Repo, j: nat)
    requires WellFormed(r)
    requires forall k :: 0 <= k < |EntryPoints| ==> EntryPoints[k] !in r.files
    requires j < |r.order| && IsRootPy(r.order[j])
    requires forall k :: 0 <= k < j ==> !IsRootPy(r.order[k])
    ensures InitPatch(r) == InitFileStep(r, r.order[j])
  {
    FirstExistingNone(r, EntryPoints);
    RootPyFilesHead(r.order, j);
    FirstExistingIs(r, RootPyFiles(r.order), 0);
    FirstExistingConcat(r, EntryPoints, RootPyFiles(r.order));
  }

  /** Stages 3 and 4: with no entry point and no root .py file, the largest
      scanned file is the target, or else main.py is created. */
  lemma InitFallsBackToLargest(r: Repo)
    requires forall k :: 0 <= k < |EntryPoints| ==> EntryPoints[k] !in r.files
    requires forall k :: 0 <= k < |r.order| ==> !IsRootPy(r.order[k])
    ensures LargestPy(r).Some? ==> InitPatch(r) == InitFileStep(r, LargestPy(r).value)
    ensures LargestPy(r).None? ==>
      InitPatch(r).outcome == Done(true) && InitPatch(r).repo.files == r.files[MainFile := MainScaffold]
  {
    FirstExistingNone(r, EntryPoints);
    RootPyFilesEmpty(r.order);
    FirstExistingConcat(r, EntryPoints, RootPyFiles(r.order));
    assert EntryPoints + [] == EntryPoints;
  }

  /** The j-th walked file is the best's file, scanned, of the best's size, and
      every scanned file before it is strictly smaller. */
  ghost predicate FirstOfSize(r: Repo, j: nat, b: Best)
    requires j < |r.order|
  {
    && b.file == Some(r.order[j]) && Scanned(r.order[j])
    && r.order[j] in r.size && r.size[r.order[j]] == b.size
    && forall k :: 0 <= k < j && Scanned(r.order[k]) && r.order[k] in r.size ==> r.size[r.order[k]] < b.size
  }

  /** The running maximum: a Some result is a scanned file of positive size,
      strictly larger than every scanned file before it and no smaller than
      any; None means every scanned file met has size 0. */
  lemma {:induction false} LargestAmongIsMax(r: Repo, n: nat)
    requires n <= |r.order|
    ensures var b := LargestAmong(r, n);
      && (b.file.None? <==> b.size == 0)
      && (forall k :: 0 <= k < n && Scanned(r.order[k]) && r.order[k] in r.size ==> r.size[r.order[k]] <= b.size)
      && (b.file.Some? ==> exists j :: 0 <= j < n && FirstOfSize(r, j, b))
  {
    if n > 0 {
      LargestAmongIsMax(r, n - 1);
      var b := LargestAmong(r, n - 1);
      var p := r.order[n - 1];
      if Scanned(p) && p in r.size && r.size[p] > b.size {
        assert FirstOfSize(r, n - 1, LargestAmong(r, n));
      } else if b.file.Some? {
        var j :| 0 <= j < n - 1 && FirstOfSize(r, j, b);
        assert 0 <= j < n;
      }
    }
  }

  /** A zero-byte file is never the largest one. */
  lemma LargestIsNonEmpty(r: Repo)
    requires LargestPy(r).Some?
    ensures LargestPy(r).value in r.size && r.size[LargestPy(r).value] > 0
    ensures Scanned(LargestPy(r).value) && LargestPy(r).value in r.order
  {
    LargestAmongIsMax(r, |r.order|);
  }

  // ---------------------------------------------------------------------
  // Properties of the whole run

  lemma ScaffoldImportsTracker()
    ensures AlreadyImports(MainScaffold)
  {
    ContainsSelf(ImportLine);
    ContainsInfix(ScaffoldHead, ImportLine, ScaffoldTail, ImportLine);
  }

  /** After add_tracker_init_to_file on a scanned readable file, the walk
      finds the import there: either it was already present, or it was added. */
  lemma InitFileStepLeavesImport(r: Repo, p: Text)
    requires WellFormed(r) && Readable(r, p) && Scanned(p)
    ensures SourceHasTracker(InitFileStep(r, p).repo)
    ensures WellFormed(InitFileStep(r, p).repo)
    ensures InitFileStep(r, p).repo.unreadable <= r.unreadable
    ensures !MentionsTrackerImport(r.files[p]) ==> InitFileStep(r, p).outcome == Done(true)
  {
    var content := r.files[p];
    var k :| 0 <= k < |r.order| && r.order[k] == p;
    match InitEdit(content)
    case None =>
      AlreadyImportsIsDetected(content);
    case Some(c) =>
      InitEditIdempotent(content);
      AlreadyImportsIsDetected(c);
      WriteFileKeepsWellFormed(r, p, c);
      var r' := WriteFile(r, p, c);
      assert r'.order[k] == p && r'.files[p] == c;
  }

  /** A file stage 1 or 2 picks is at the root and ends in .py. */
  lemma CandidateIsScanned(r: Repo, p: Text)
    requires p in EntryPoints + RootPyFiles(r.order)
    ensures Scanned(p)
  {
    if p !in RootPyFiles(r.order) {
      assert p in EntryPoints;
      forall q | q in EntryPoints ensures AtRoot(q) && EndsWith(q, ".py") { }
    }
    RootIsNotHidden(p);
  }

  /** Stage 4 writes a new, scanned main.py that imports the tracker. */
  lemma ScaffoldLeavesImport(r: Repo)
    requires WellFormed(r) && MainFile !in r.files
    ensures SourceHasTracker(WriteFile(r, MainFile, MainScaffold))
    ensures WellFormed(WriteFile(r, MainFile, MainScaffold))
  {
    ScaffoldImportsTracker();
    AlreadyImportsIsDetected(MainScaffold);
    WriteFileKeepsWellFormed(r, MainFile, MainScaffold);
    var r' := WriteFile(r, MainFile, MainScaffold);
    assert r'.order[|r.order|] == MainFile;
    MainFileIsScanned();
  }

  lemma MainFileIsScanned()
    ensures Scanned(MainFile)
  {
    RootIsNotHidden(MainFile);
  }

  /** Whatever stage picks the file, the initialization patch leaves a scanned
      file that imports the tracker; it reports a change unless the file it
      picked already had the import. */
  lemma InitPatchLeavesImport(r: Repo)
    requires WellFormed(r) && r.unreadable == {}
    ensures SourceHasTracker(InitPatch(r).repo)
    ensures WellFormed(InitPatch(r).repo) && InitPatch(r).repo.unreadable == {}
    ensures !SourceHasTracker(r) ==> InitPatch(r).outcome == Done(true)
  {
    var p: Text;
    match FirstExisting(r, EntryPoints + RootPyFiles(r.order)) {
      case Some(q) =>
        CandidateIsScanned(r, q);
        p := q;
      case None =>
        match LargestPy(r) {
          case Some(q) =>
            LargestIsNonEmpty(r);
            p := q;
          case None =>
            assert MainFile !in r.files by {
              FirstExistingMissesAll(r, EntryPoints + RootPyFiles(r.order));
              assert (EntryPoints + RootPyFiles(r.order))[0] == MainFile;
            }
            ScaffoldLeavesImport(r);
            return;
        }
    }
    assert InitPatch(r) == InitFileStep(r, p);
    InitFileStepLeavesImport(r, p);
    if !SourceHasTracker(r) {
      var k :| 0 <= k < |r.order| && r.order[k] == p;
      assert !MentionsTrackerImport(r.files[p]);
    }
  }

  /** A readable repository without the tracker is patched and proposed, and
      the patched repository is detected as tracked, so a second run stops at
      detection. */
  lemma ProcessProposesThenSkips(r: Repo)
    requires WellFormed(r) && r.unreadable == {} && !HasTracker(r)
    ensures Process(r).verdict == ReadyToPropose
    ensures Process(Process(r).repo).verdict == AlreadyTracked
  {
    DependencyPatchKeepsWellFormed(r);
    var d := DependencyPatch(r);
    InitPatchLeavesImport(d.repo);
    if d.outcome == Done(false) {
      assert d.repo == r;
    }
  }
}
