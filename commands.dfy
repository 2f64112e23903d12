/**
 * The installing core of the two commands: resolve then execute
 * (claude-init.py:308-312 and 461-467), the placeholder rendering of
 * `init-project` (claude-init.py:362-437) and its append-only `.gitignore`
 * edit (claude-init.py:449-478).
 */
module Commands {
  import opened Wrappers
  import opened Text
  import opened Files
  import opened Plans
  import opened Resolution
  import opened Execution

  // ---------------------------------------------------------------------
  // Rendering
  // ---------------------------------------------------------------------

  const ProjectPlaceholder: string := "<project-name>"
  const CollectionPlaceholder: string := "your-collection-name"
  const ServerPlaceholder: string := "project-search"

  /** The project `CLAUDE.md`: the template with the project name filled in (claude-init.py:365). */
  function RenderProjectClaude(template: string, projectName: string): string
  {
    Replace(template, ProjectPlaceholder, projectName)
  }

  /**
   * The `.mcp.json` rendered for `--collection`: two replacements, the
   * second one applied to the output of the first (claude-init.py:420-423).
   */
  function RenderMcp(template: string, collection: string, projectName: string): string
  {
    var withCollection := Replace(template, CollectionPlaceholder, collection);
    Replace(withCollection, ServerPlaceholder, projectName + "-search")
  }

  /**
   * The text installed as `.mcp.json`: rendered when `--collection` is given
   * and non-empty, the template itself otherwise (claude-init.py:419-436).
   */
  function McpText(template: string, collection: Option<string>, projectName: string): string
  {
    if collection.Some? && collection.value != "" then RenderMcp(template, collection.value, projectName)
    else template
  }

  /**
   * Substitution is exact: cutting the template at every placeholder gives
   * pieces free of the placeholder; the template is those pieces joined by
   * the placeholder and the rendered file is the same pieces joined by the
   * project name.
   */
  lemma ProjectTemplateRendering(template: string, projectName: string)
    ensures var pieces := Split(template, ProjectPlaceholder);
            && Join(pieces, ProjectPlaceholder) == template
            && RenderProjectClaude(template, projectName) == Join(pieces, projectName)
            && (forall k :: 0 <= k < |pieces| ==> !Contains(pieces[k], ProjectPlaceholder))
  {
    var pieces := Split(template, ProjectPlaceholder);
    SplitJoinRoundTrip(template, ProjectPlaceholder);
    ReplaceIsJoinOfSplit(template, ProjectPlaceholder, projectName);
    forall k | 0 <= k < |pieces|
      ensures !Contains(pieces[k], ProjectPlaceholder)
    {
      SplitPiecesAreFree(template, ProjectPlaceholder, k);
    }
  }

  /** A template without the placeholder is installed unchanged. */
  lemma ProjectTemplateWithoutPlaceholder(template: string, projectName: string)
    requires !Contains(template, ProjectPlaceholder)
    ensures RenderProjectClaude(template, projectName) == template
  {
    ReplaceAbsent(template, ProjectPlaceholder, projectName);
  }

  /** Without a (non-empty) collection the `.mcp.json` template is installed as it is. */
  lemma McpUnrenderedWithoutCollection(template: string, collection: Option<string>, projectName: string)
    requires collection.None? || collection.value == ""
    ensures McpText(template, collection, projectName) == template
  {
  }

  /**
   * The two `.mcp.json` replacements are applied one after the other, and in
   * a template without the server name the second one only rewrites what the
   * first one inserted: every collection placeholder ends up as the server
   * name.
   */
  lemma {:induction false} ServerAfterCollection(t: string, v: string)
    requires !Contains(t, ServerPlaceholder)
    ensures Replace(Replace(t, CollectionPlaceholder, ServerPlaceholder), ServerPlaceholder, v)
            == Replace(t, CollectionPlaceholder, v)
    decreases |t|
  {
    var c, sv := CollectionPlaceholder, ServerPlaceholder;
    if |t| < |c| {
      ReplaceAbsent(t, sv, v);
    } else if t[..|c|] == c {
      var rest := t[|c|..];
      assert t[..|c|] + rest == t;
      if Contains(rest, sv) {
        ContainsAfter(t[..|c|], rest, sv);
      }
      ServerAfterCollection(rest, v);
      var x := Replace(rest, c, sv);
      assert Replace(t, c, sv) == sv + x;
      assert (sv + x)[..|sv|] == sv;
      assert (sv + x)[|sv|..] == x;
    } else {
      var u := t[1..];
      assert !Contains(u, sv);
      ServerAfterCollection(u, v);
      var x := Replace(u, c, sv);
      var y := [t[0]] + x;
      assert Replace(t, c, sv) == y;
      assert forall j :: 1 <= j < |sv| ==> sv[j] != sv[0];
      NoMatchAtSeam(t, c, sv);
      assert y[1..] == x;
    }
  }

  /**
   * With `--collection` set to "project-search", the second replacement also
   * rewrites every collection name the first one inserted: a template without
   * the server name renders as if each collection placeholder were replaced
   * by the server name directly.
   */
  lemma McpReplacementsAreSequential(template: string, projectName: string)
    requires !Contains(template, ServerPlaceholder)
    ensures McpText(template, Some(ServerPlaceholder), projectName)
            == Replace(template, CollectionPlaceholder, projectName + "-search")
  {
    ServerAfterCollection(template, projectName + "-search");
  }

  // ---------------------------------------------------------------------
  // .gitignore
  // ---------------------------------------------------------------------

  const GitignoreEntry: string := ".claude/settings.local.json"
  const GitignoreBlock: string := "# Claude Code — personal settings\n" + GitignoreEntry + "\n"

  /** `gi_has_entry` (claude-init.py:452). */
  predicate HasEntry(files: Files, gitignore: Path)
  {
    gitignore in files && Contains(files[gitignore], GitignoreEntry)
  }

  /** The file after the append: a separating newline only after existing content. */
  function AppendBlock(prior: string): string
  {
    prior + (if |prior| > 0 then "\n" else "") + GitignoreBlock
  }

  /** The `.gitignore` edit as a whole: append the block unless the entry is already there. */
  function EnsureEntry(prior: string): string
  {
    if Contains(prior, GitignoreEntry) then prior else AppendBlock(prior)
  }

  /** After an append the entry is present, and the old content is kept as a prefix. */
  lemma AppendBlockAddsEntry(prior: string)
    ensures prior <= AppendBlock(prior)
    ensures Contains(AppendBlock(prior), GitignoreEntry)
  {
    var front := prior + (if |prior| > 0 then "\n" else "") + "# Claude Code — personal settings\n";
    ContainsPrefix(GitignoreEntry, "\n");
    ContainsAfter(front, GitignoreEntry + "\n", GitignoreEntry);
    assert AppendBlock(prior) == front + (GitignoreEntry + "\n");
  }

  /**
   * The edit is append-only and idempotent: the entry is present afterwards,
   * the old content is a prefix, a file that already has the entry is left
   * alone, an empty or missing file gets no leading newline, and a second
   * run changes nothing.
   */
  lemma GitignoreEditIdempotent(prior: string)
    ensures Contains(EnsureEntry(prior), GitignoreEntry)
    ensures prior <= EnsureEntry(prior)
    ensures Contains(prior, GitignoreEntry) ==> EnsureEntry(prior) == prior
    ensures EnsureEntry("") == GitignoreBlock
    ensures EnsureEntry(EnsureEntry(prior)) == EnsureEntry(prior)
  {
    AppendBlockAddsEntry(prior);
    assert !Contains("", GitignoreEntry);
  }

  /** The `with gi_path.open("a")` block (claude-init.py:471-474). */
  method AppendGitignoreEntry(fs: FileSystem, gitignore: Path)
    modifies fs
    ensures fs.files == old(fs.files)[gitignore := AppendBlock(Content(old(fs.files), gitignore))]
  {
    ghost var prior := Content(fs.files, gitignore);
    fs.Append(gitignore, "");  // opening in append mode creates the file
    assert prior + "" == prior;
    var nonEmpty := gitignore in fs.files && |fs.files[gitignore]| > 0;
    if nonEmpty {
      fs.Append(gitignore, "\n");
    }
    assert Content(fs.files, gitignore) == prior + (if |prior| > 0 then "\n" else "");
    fs.Append(gitignore, GitignoreBlock);
  }

  // ---------------------------------------------------------------------
  // Resolve, then execute
  // ---------------------------------------------------------------------

  /** What a run reports: its counters, or the exception that ended it. */
  function Reported(o: Outcome): Result<Tally, IoError>
  {
    match o
    case Completed(_, t) => Success(t)
    case Aborted(_, e) => Failure(e)
  }

  /**
   * `resolve_conflicts` followed by `execute_plans`. None is the exit on Quit
   * or a cancelled menu: nothing is assigned and nothing is written.
   */
  method InstallPlans(plans: seq<FilePlan>, force: bool, choice: Option<Choice>, answers: seq<bool>,
                      backupBase: Path, fs: FileSystem)
    returns (r: Option<Result<Tally, IoError>>)
    requires Distinct(plans)
    modifies plans, fs
    ensures var acts := Resolve(old(Views(plans)), force, choice, answers);
            && (r.None? <==> acts.None?)
            && (r.None? ==> fs.files == old(fs.files) && Actions(plans) == old(Actions(plans)))
            && (r.Some? ==> Actions(plans) == acts.value)
    ensures r.Some? ==>
              var o := ExecAll(Steps(plans), backupBase, old(fs.files));
              r.value == Reported(o) && fs.files == o.files
    ensures r.Some? && r.value.Success? ==> r.value.value.Total() == |plans|
  {
    ghost var views := Views(plans);
    var exited := ResolveConflicts(plans, force, choice, answers);
    if exited {
      return None;
    }
    ResolveSettlesEveryPlan(views, force, choice, answers);
    var result := ExecutePlans(plans, backupBase, fs);
    if ExecAll(Steps(plans), backupBase, old(fs.files)).Completed? {
      CountersConserved(Steps(plans), backupBase, old(fs.files));
    }
    r := Some(result);
  }

  /** The append after the run, counted as one more installed file (claude-init.py:470-476). */
  method FinishGitignore(fs: FileSystem, gitignore: Path, present: bool, t: Tally) returns (t': Tally)
    modifies fs
    ensures t' == if present then t else t.(installed := t.installed + 1)
    ensures fs.files == if present then old(fs.files)
                        else old(fs.files)[gitignore := AppendBlock(Content(old(fs.files), gitignore))]
  {
    t' := t;
    if !present {
      AppendGitignoreEntry(fs, gitignore);
      t' := t.(installed := t.installed + 1);
    }
  }

  /**
   * A run of `init-project` followed by the `.gitignore` append: after a
   * completed run without the entry, the block is appended and counted as
   * installed.
   */
  function AppendAfter(o: Outcome, present: bool, gitignore: Path): Outcome
  {
    if o.Aborted? || present then o
    else Completed(o.files[gitignore := AppendBlock(Content(o.files, gitignore))],
                   o.tally.(installed := o.tally.installed + 1))
  }

  /**
   * After a completed run, the append makes the outcome `AppendAfter` gives
   * and counts the `.gitignore` as one more file; when no plan writes
   * `.gitignore`, the check before the run and the append after it together
   * make the `EnsureEntry` edit of the old content.
   */
  lemma GitignoreAfterRun(steps: seq<Step>, backupBase: Path, before: Files, gitignore: Path,
                          t: Tally, after: Files)
    requires var o := ExecAll(steps, backupBase, before);
             && o.Completed? && o.tally.Total() == |steps|
             && t == (if HasEntry(before, gitignore) then o.tally
                      else o.tally.(installed := o.tally.installed + 1))
             && after == (if HasEntry(before, gitignore) then o.files
                          else o.files[gitignore := AppendBlock(Content(o.files, gitignore))])
    ensures AppendAfter(ExecAll(steps, backupBase, before), HasEntry(before, gitignore), gitignore)
            == Completed(after, t)
    ensures t.Total() == |steps| + (if HasEntry(before, gitignore) then 0 else 1)
    ensures gitignore !in Targets(steps, backupBase) ==>
              && gitignore in after
              && after[gitignore] == EnsureEntry(Content(before, gitignore))
              && HasEntry(after, gitignore)
  {
    var ran := ExecAll(steps, backupBase, before).files;
    if gitignore !in Targets(steps, backupBase) {
      ExecAllFrame(steps, backupBase, before, gitignore);
      assert Content(ran, gitignore) == Content(before, gitignore);
      GitignoreEditIdempotent(Content(before, gitignore));
      AppendBlockAddsEntry(Content(ran, gitignore));
    }
  }

  /**
   * The installing part of `cmd_init_project`: the `.gitignore` check made
   * before anything is written, resolve and execute, then the append, which
   * counts as one more installed file.
   */
  method InitProject(plans: seq<FilePlan>, force: bool, choice: Option<Choice>, answers: seq<bool>,
                     backupBase: Path, gitignore: Path, fs: FileSystem)
    returns (r: Option<Result<Tally, IoError>>)
    requires Distinct(plans)
    modifies plans, fs
    ensures (r.None? <==> Resolve(old(Views(plans)), force, choice, answers).None?)
    ensures r.None? ==> fs.files == old(fs.files) && Actions(plans) == old(Actions(plans))
    ensures r.Some? ==> Actions(plans) == Resolve(old(Views(plans)), force, choice, answers).value
    ensures r.Some? ==>
              var o := AppendAfter(ExecAll(Steps(plans), backupBase, old(fs.files)),
                                   HasEntry(old(fs.files), gitignore), gitignore);
              r.value == Reported(o) && fs.files == o.files
    ensures r.Some? && r.value.Success? ==>
              r.value.value.Total() == |plans| + (if HasEntry(old(fs.files), gitignore) then 0 else 1)
    ensures r.Some? && r.value.Success? && gitignore !in Targets(Steps(plans), backupBase) ==>
              && gitignore in fs.files
              && fs.files[gitignore] == EnsureEntry(Content(old(fs.files), gitignore))
              && HasEntry(fs.files, gitignore)
  {
    ghost var before := fs.files;
    var present := gitignore in fs.files && Contains(fs.files[gitignore], GitignoreEntry);
    r := InstallPlans(plans, force, choice, answers, backupBase, fs);
    if r.None? || r.value.Failure? {
      return;
    }
    ghost var steps := Steps(plans);
    var t := FinishGitignore(fs, gitignore, present, r.value.value);
    r := Some(Success(t));
    GitignoreAfterRun(steps, backupBase, before, gitignore, t, fs.files);
    assert Steps(plans) == steps;
  }
}
