/** The updater working on a checked-out repository it changes in place. The
    fields are the repository; each method does what the corresponding method
    of the updater does, and is proved to leave exactly the state (and report
    exactly the result) that the functions of module Updater describe. */
module Workspace {
  import opened Strings
  import opened Patterns
  import opened Manifests
  import opened EntryPatch
  import opened Updater

  class TrackerUpdater {
    var files: map<Text, Text>
    var order: seq<Text>
    var size: map<Text, nat>
    var unreadable: set<Text>

    /** The repository the fields hold. */
    function State(): Repo
      reads this
    {
      Repo(files, order, size, unreadable)
    }

    constructor (r: Repo)
      ensures State() == r
    {
      files, order, size, unreadable := r.files, r.order, r.size, r.unreadable;
    }

    // -------------------------------------------------------------------
    // Detection

    /** check_dependency_files: the six manifests in order; a file that
        cannot be read is passed over. */
    method CheckDependencyFiles() returns (found: bool)
      ensures found == ManifestHasTracker(State())
    {
      for i := 0 to |DetectedManifests|
        invariant forall k :: 0 <= k < i ==>
          !(Readable(State(), DetectedManifests[k]) && Contains(files[DetectedManifests[k]], PackageName))
      {
        var p := DetectedManifests[i];
        if p in files && p !in unreadable && Contains(files[p], PackageName) {
          return true;
        }
      }
      return false;
    }

    /** check_tracker_imports: every scanned file in walk order. */
    method CheckTrackerImports() returns (found: bool)
      ensures found == SourceHasTracker(State())
    {
      for i := 0 to |order|
        invariant forall k :: 0 <= k < i ==>
          !(Scanned(order[k]) && Readable(State(), order[k]) && MentionsTrackerImport(files[order[k]]))
      {
        var p := order[i];
        if Scanned(p) && p in files && p !in unreadable && MentionsTrackerImport(files[p]) {
          return true;
        }
      }
      return false;
    }

    method CheckTrackerExists() returns (found: bool)
      ensures found == HasTracker(State())
    {
      found := CheckDependencyFiles();
      if !found {
        found := CheckTrackerImports();
      }
    }

    // -------------------------------------------------------------------
    // Writes and the four editors

    method Write(p: Text, content: Text)
      modifies this
      ensures State() == WriteFile(old(State()), p, content)
    {
      if p !in files {
        order := order + [p];
      }
      files := files[p := content];
      size := size[p := Utf8Len(content)];
      unreadable := unreadable - {p};
    }

    /** add_to_requirements: append the package line when the name is absent. */
    method AddToRequirements() returns (outcome: Outcome)
      requires RequirementsFile in files
      modifies this
      ensures Step(outcome, State()) == ManifestStep(old(State()), 0)
    {
      var p := RequirementsFile;
      if p in unreadable {
        return Raised;
      }
      var content := files[p];
      if !Contains(content, PackageName) {
        Write(p, content + RequirementLine);
        return Done(true);
      }
      return Done(false);
    }

    /** add_to_pyproject and add_to_pipfile: one line after the first exact
        header line, with the line list rewritten even when there is none. */
    method AddAfterHeader(k: nat, header: Text) returns (outcome: Outcome)
      requires (k == 1 && header == PoetryHeader) || (k == 3 && header == PipfileHeader)
      requires PatchedManifests[k] in files
      modifies this
      ensures Step(outcome, State()) == ManifestStep(old(State()), k)
    {
      var p := PatchedManifests[k];
      if p in unreadable {
        return Raised;
      }
      var content := files[p];
      if !Contains(content, PackageName) && Contains(content, header) {
        var lines := Lines(content);
        lines := InsertAfterHeaderLine(lines, header);
        Write(p, Join(lines));
        return Done(true);
      }
      return Done(false);
    }

    /** add_to_setup_py: rewrite every copy of the first install_requires list. */
    method AddToSetupPy() returns (outcome: Outcome)
      requires PatchedManifests[2] in files
      modifies this
      ensures Step(outcome, State()) == ManifestStep(old(State()), 2)
    {
      var p := PatchedManifests[2];
      if p in unreadable {
        return Raised;
      }
      var content := files[p];
      if !Contains(content, PackageName) {
        var found := FindListFrom(content, 0);
        if found.Some? {
          Write(p, Rewrite(content, found.value));
          return Done(true);
        }
      }
      return Done(false);
    }

    /** add_dependency: the first manifest present in preference order gets its
        editor; with none, requirements.txt is created. */
    method AddDependency() returns (outcome: Outcome)
      modifies this
      ensures Step(outcome, State()) == DependencyPatch(old(State()))
    {
      var i := 0;
      while i < |PatchedManifests|
        invariant 0 <= i <= |PatchedManifests|
        invariant FirstPresent(State(), PatchedManifests, 0) == FirstPresent(State(), PatchedManifests, i)
      {
        if PatchedManifests[i] in files {
          if i == 0 {
            outcome := AddToRequirements();
          } else if i == 1 {
            outcome := AddAfterHeader(1, PoetryHeader);
          } else if i == 2 {
            outcome := AddToSetupPy();
          } else {
            outcome := AddAfterHeader(3, PipfileHeader);
          }
          return;
        }
        i := i + 1;
      }
      Write(RequirementsFile, RequirementLine);
      return Done(true);
    }

    // -------------------------------------------------------------------
    // add_initialization

    /** add_tracker_init_to_file: False when the file cannot be read. */
    method AddTrackerInitToFile(p: Text) returns (changed: bool)
      modifies this
      ensures Step(Done(changed), State()) == InitFileStep(old(State()), p)
    {
      if p !in files || p in unreadable {
        return false;
      }
      var edited := AddTrackerInit(files[p]);
      if edited.Some? {
        Write(p, edited.value);
        return true;
      }
      return false;
    }

    /** root_python_files, in listing order. */
    method RootPythonFiles() returns (fs: seq<Text>)
      ensures fs == RootPyFiles(order)
    {
      fs := [];
      var i := |order|;
      while i > 0
        invariant 0 <= i <= |order|
        invariant fs == RootPyFiles(order[i..])
      {
        i := i - 1;
        assert order[i..][1..] == order[i + 1..];
        var p := order[i];
        if AtRoot(p) && EndsWith(p, ".py") && !StartsWith(p, "setup") {
          fs := [p] + fs;
        }
      }
      assert order[0..] == order;
    }

    /** The walk for the largest scanned file, with the updater's running
        largest_file / largest_size (a missing size is a getsize failure). */
    method LargestPyFile() returns (largest: Option<Text>)
      ensures largest == LargestPy(State())
    {
      largest := None;
      var largestSize := 0;
      for i := 0 to |order|
        invariant Best(largest, largestSize) == LargestAmong(State(), i)
      {
        var p := order[i];
        if Scanned(p) && p in size {
          if size[p] > largestSize {
            largestSize := size[p];
            largest := Some(p);
          }
        }
      }
    }

    /** add_initialization. */
    method AddInitialization() returns (changed: bool)
      modifies this
      ensures Step(Done(changed), State()) == InitPatch(old(State()))
    {
      var roots := RootPythonFiles();
      var candidates := EntryPoints + roots;
      for i := 0 to |candidates|
        invariant FirstExisting(State(), candidates) == FirstExisting(State(), candidates[i..])
      {
        assert candidates[i..][1..] == candidates[i + 1..];
        if candidates[i] in files {
          changed := AddTrackerInitToFile(candidates[i]);
          return;
        }
      }
      var largest := LargestPyFile();
      if largest.Some? {
        changed := AddTrackerInitToFile(largest.value);
        return;
      }
      Write(MainFile, MainScaffold);
      return true;
    }

    // -------------------------------------------------------------------
    // add_tracker_to_repo and process_single_repository

    method AddTrackerToRepo() returns (outcome: Outcome)
      modifies this
      ensures Step(outcome, State()) == TrackerPatch(old(State()))
    {
      outcome := AddDependency();
      if outcome.Raised? {
        return;
      }
      var changedInit := AddInitialization();
      outcome := Done(outcome.changed || changedInit);
    }

    method ProcessRepository() returns (verdict: Verdict)
      modifies this
      ensures Run(verdict, State()) == Process(old(State()))
    {
      var tracked := CheckTrackerExists();
      if tracked {
        return AlreadyTracked;
      }
      var outcome := AddTrackerToRepo();
      match outcome {
        case Raised => verdict := Failed;
        case Done(changed) => verdict := if changed then ReadyToPropose else NoChanges;
      }
    }
  }
}
