/**
 * `execute_plans` (claude-init.py:156-189): carries out every plan in order,
 * writing the filesystem and counting installed, updated and skipped files.
 * An exception from `shutil` is not caught: it ends the run with the writes
 * made so far left in place.
 */
module Execution {
  import opened Wrappers
  import opened Files
  import opened Plans

  /** The three counters `execute_plans` returns. */
  datatype Tally = Tally(installed: nat, updated: nat, skipped: nat)
  {
    function Total(): nat { installed + updated + skipped }
  }

  /** Which counter a plan increments when it goes through. */
  datatype Counter = Installed | Updated | Skipped | Uncounted

  /** The branch of the `if` chain that a plan takes (claude-init.py:163-187). */
  function CounterOf(s: Step): Counter
  {
    if s.alwaysUpdate then Updated
    else match s.action
      case Install => Installed
      case Update => Updated
      case Skip => Skipped
      case Pending => Uncounted
  }

  function Bump(t: Tally, c: Counter): Tally
  {
    match c
    case Installed => t.(installed := t.installed + 1)
    case Updated => t.(updated := t.updated + 1)
    case Skipped => t.(skipped := t.skipped + 1)
    case Uncounted => t
  }

  /** The writes of one plan. */
  function ExecStep(s: Step, backupBase: Path, files: Files): Written
  {
    if s.alwaysUpdate then CopyFile(files, s.src, s.dest)
    else match s.action
      case Install => CopyFile(files, s.src, s.dest)
      case Update => BackupAndCopyFile(files, s.src, s.dest, backupBase)
      case Skip => Done(files)
      case Pending => Done(files)
  }

  /** How a run ends: with the counters, or with the exception and the files as they were left. */
  datatype Outcome = Completed(files: Files, tally: Tally) | Aborted(files: Files, error: IoError)

  /** The run of `execute_plans` over `steps`, one step after the other. */
  function ExecAll(steps: seq<Step>, backupBase: Path, files: Files): Outcome
    decreases |steps|
  {
    if steps == [] then Completed(files, Tally(0, 0, 0))
    else
      var last := steps[|steps| - 1];
      match ExecAll(steps[..|steps| - 1], backupBase, files)
      case Aborted(f, e) => Aborted(f, e)
      case Completed(f, t) =>
        match ExecStep(last, backupBase, f)
        case Raised(g, e) => Aborted(g, e)
        case Done(g) => Completed(g, Bump(t, CounterOf(last)))
  }

  /** How many steps take the branch of counter `c`. */
  function CountOf(steps: seq<Step>, c: Counter): nat
    decreases |steps|
  {
    if steps == [] then 0
    else CountOf(steps[..|steps| - 1], c) + (if CounterOf(steps[|steps| - 1]) == c then 1 else 0)
  }

  /** A completed run's counters are exactly the numbers of plans in each branch. */
  lemma {:induction false} TallyCountsBranches(steps: seq<Step>, backupBase: Path, files: Files)
    requires ExecAll(steps, backupBase, files).Completed?
    ensures ExecAll(steps, backupBase, files).tally ==
            Tally(CountOf(steps, Installed), CountOf(steps, Updated), CountOf(steps, Skipped))
    decreases |steps|
  {
    if steps != [] {
      TallyCountsBranches(steps[..|steps| - 1], backupBase, files);
    }
  }

  /** Every step falls in exactly one branch. */
  lemma {:induction false} BranchesPartitionSteps(steps: seq<Step>)
    ensures CountOf(steps, Installed) + CountOf(steps, Updated) + CountOf(steps, Skipped)
            + CountOf(steps, Uncounted) == |steps|
    decreases |steps|
  {
    if steps != [] {
      BranchesPartitionSteps(steps[..|steps| - 1]);
    }
  }

  /** Only a pending plan that is not always updated falls through the `if` chain. */
  lemma {:induction false} NoUncountedWhenSettled(steps: seq<Step>)
    requires forall i :: 0 <= i < |steps| ==> steps[i].alwaysUpdate || steps[i].action != Pending
    ensures CountOf(steps, Uncounted) == 0
    decreases |steps|
  {
    if steps != [] {
      NoUncountedWhenSettled(steps[..|steps| - 1]);
    }
  }

  /**
   * Counters are conserved: when every plan is resolved or always updated,
   * a completed run counts each plan exactly once.
   */
  lemma CountersConserved(steps: seq<Step>, backupBase: Path, files: Files)
    requires forall i :: 0 <= i < |steps| ==> steps[i].alwaysUpdate || steps[i].action != Pending
    requires ExecAll(steps, backupBase, files).Completed?
    ensures ExecAll(steps, backupBase, files).tally.Total() == |steps|
  {
    TallyCountsBranches(steps, backupBase, files);
    BranchesPartitionSteps(steps);
    NoUncountedWhenSettled(steps);
  }

  /** An always-updated plan is copied and counted as updated, with no backup. */
  lemma AlwaysUpdateCopies(s: Step, backupBase: Path, files: Files)
    requires s.alwaysUpdate
    ensures CounterOf(s) == Updated
    ensures ExecStep(s, backupBase, files) == CopyFile(files, s.src, s.dest)
  {
  }

  /** A skipped plan touches nothing. */
  lemma SkipTouchesNothing(s: Step, backupBase: Path, files: Files)
    requires !s.alwaysUpdate && s.action == Skip
    ensures ExecStep(s, backupBase, files) == Done(files) && CounterOf(s) == Skipped
  {
  }

  /** The paths one step may write: its destination, and its backup path for an update. */
  function StepTargets(s: Step, backupBase: Path): set<Path>
  {
    if s.alwaysUpdate || s.action == Install then {s.dest}
    else if s.action == Update then {s.dest, BackupPath(backupBase, s.dest)}
    else {}
  }

  function Targets(steps: seq<Step>, backupBase: Path): set<Path>
    decreases |steps|
  {
    if steps == [] then {}
    else Targets(steps[..|steps| - 1], backupBase) + StepTargets(steps[|steps| - 1], backupBase)
  }

  /** One step writes nothing outside its targets. */
  lemma StepFrame(s: Step, backupBase: Path, files: Files, q: Path)
    requires q !in StepTargets(s, backupBase)
    ensures var g := ExecStep(s, backupBase, files).files;
            (q in g <==> q in files) && (q in files ==> g[q] == files[q])
  {
    if !s.alwaysUpdate && s.action == Update {
      BackupBeforeOverwrite(files, s.src, s.dest, backupBase);
    }
  }

  /**
   * Only destinations are touched: a run, completed or aborted, leaves every
   * path that is neither a destination nor the backup path of an update as it was.
   */
  lemma {:induction false} ExecAllFrame(steps: seq<Step>, backupBase: Path, files: Files, q: Path)
    requires q !in Targets(steps, backupBase)
    ensures var g := ExecAll(steps, backupBase, files).files;
            (q in g <==> q in files) && (q in files ==> g[q] == files[q])
    decreases |steps|
  {
    if steps != [] {
      var init := steps[..|steps| - 1];
      ExecAllFrame(init, backupBase, files, q);
      match ExecAll(init, backupBase, files)
      case Aborted(f, e) =>
      case Completed(f, t) =>
        StepFrame(steps[|steps| - 1], backupBase, f, q);
    }
  }

  /**
   * Backups are flattened by file name: when two updated plans have
   * destinations with the same name, the second backup replaces the first,
   * so the first destination's old content survives nowhere in the backup
   * directory (claude-init.py:76).
   */
  lemma BackupsCollideByName(u1: Step, u2: Step, backupBase: Path, files: Files)
    requires !u1.alwaysUpdate && u1.action == Update
    requires !u2.alwaysUpdate && u2.action == Update
    requires u1.dest != u2.dest && Name(u1.dest) == Name(u2.dest)
    requires ExecAll([u1, u2], backupBase, files).Completed?
    ensures var g := ExecAll([u1, u2], backupBase, files).files;
            var bak := BackupPath(backupBase, u1.dest);
            u2.dest in files && g[bak] == files[u2.dest]
  {
    var bak := BackupPath(backupBase, u1.dest);
    assert bak == BackupPath(backupBase, u2.dest);
    assert [u1, u2][..1] == [u1];
    assert [u1][..0] == [];
    var first := ExecStep(u1, backupBase, files);
    assert ExecAll([u1], backupBase, files).files == first.files;
    BackupBeforeOverwrite(files, u1.src, u1.dest, backupBase);
    BackupBeforeOverwrite(first.files, u2.src, u2.dest, backupBase);
    var second := ExecStep(u2, backupBase, first.files);
    assert first.Done? && second.Done?;
    assert ExecAll([u1, u2], backupBase, files).files == second.files;
    assert u2.dest != bak;
  }

  /** The run over one more step, unfolded once. */
  lemma ExecAllSnoc(steps: seq<Step>, i: nat, backupBase: Path, files: Files)
    requires i < |steps|
    ensures ExecAll(steps[..i + 1], backupBase, files) ==
            match ExecAll(steps[..i], backupBase, files)
            case Aborted(f, e) => Aborted(f, e)
            case Completed(f, t) =>
              match ExecStep(steps[i], backupBase, f)
              case Raised(g, e) => Aborted(g, e)
              case Done(g) => Completed(g, Bump(t, CounterOf(steps[i])))
  {
    assert steps[..i + 1][..i] == steps[..i];
  }

  /** The counter one iteration of `execute_plans` bumps (claude-init.py:163-187). */
  method CountPlan(p: FilePlan, installed: nat, updated: nat, skipped: nat)
    returns (installed': nat, updated': nat, skipped': nat)
    ensures Tally(installed', updated', skipped') ==
            Bump(Tally(installed, updated, skipped), CounterOf(Step(p.src, p.dest, p.alwaysUpdate, p.action)))
  {
    installed', updated', skipped' := installed, updated, skipped;
    if p.alwaysUpdate {
      updated' := updated + 1;
    } else if p.action == Install {
      installed' := installed + 1;
    } else if p.action == Update {
      updated' := updated + 1;
    } else if p.action == Skip {
      skipped' := skipped + 1;
    }
  }

  /** The writes of one iteration of `execute_plans` (claude-init.py:163-187). */
  method ExecuteOne(p: FilePlan, backupBase: Path, fs: FileSystem) returns (err: Option<IoError>)
    modifies fs
    ensures match ExecStep(Step(p.src, p.dest, p.alwaysUpdate, p.action), backupBase, old(fs.files))
            case Done(f) => err == None && fs.files == f
            case Raised(f, e) => err == Some(e) && fs.files == f
  {
    err := None;
    if p.alwaysUpdate {
      err := fs.Copy(p.src, p.dest);
    } else if p.action == Install {
      err := fs.Copy(p.src, p.dest);
    } else if p.action == Update {
      err := BackupAndCopy(fs, p.src, p.dest, backupBase);
    }
  }

  /** `execute_plans`; a raised exception comes back as `Failure`. */
  method ExecutePlans(plans: seq<FilePlan>, backupBase: Path, fs: FileSystem) returns (r: Result<Tally, IoError>)
    modifies fs
    ensures match ExecAll(Steps(plans), backupBase, old(fs.files))
            case Completed(f, t) => r == Success(t) && fs.files == f
            case Aborted(f, e) => r == Failure(e) && fs.files == f
  {
    ghost var steps := Steps(plans);
    ghost var initial := fs.files;
    var installed: nat, updated: nat, skipped: nat := 0, 0, 0;
    for i := 0 to |plans|
      invariant ExecAll(steps[..i], backupBase, initial) ==
                Completed(fs.files, Tally(installed, updated, skipped))
    {
      ExecAllSnoc(steps, i, backupBase, initial);
      var p := plans[i];
      assert steps[i] == Step(p.src, p.dest, p.alwaysUpdate, p.action);
      ghost var w := ExecStep(steps[i], backupBase, fs.files);
      ghost var before := Tally(installed, updated, skipped);
      var err := ExecuteOne(p, backupBase, fs);
      if err.Some? {
        assert ExecAll(steps[..i + 1], backupBase, initial) == Aborted(fs.files, err.value);
        ExecAllStopsAtFailure(steps, i + 1, backupBase, initial);
        return Failure(err.value);
      }
      assert w == Done(fs.files);
      installed, updated, skipped := CountPlan(p, installed, updated, skipped);
      assert Tally(installed, updated, skipped) == Bump(before, CounterOf(steps[i]));
    }
    assert steps[..|plans|] == steps;
    r := Success(Tally(installed, updated, skipped));
  }

  /** Once a prefix of the run aborts, the whole run ends the same way. */
  lemma {:induction false} ExecAllStopsAtFailure(steps: seq<Step>, n: nat, backupBase: Path, files: Files)
    requires n <= |steps|
    requires ExecAll(steps[..n], backupBase, files).Aborted?
    ensures ExecAll(steps, backupBase, files) == ExecAll(steps[..n], backupBase, files)
    decreases |steps| - n
  {
    if n < |steps| {
      assert steps[..n + 1][..n] == steps[..n];
      assert ExecAll(steps[..n + 1], backupBase, files) == ExecAll(steps[..n], backupBase, files);
      ExecAllStopsAtFailure(steps, n + 1, backupBase, files);
    } else {
      assert steps[..n] == steps;
    }
  }
}
