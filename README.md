# claude-init installer, modelled in Dafny

`claude-init` installs configuration files into `~/.claude/` (`init-globals`)
and into a project directory (`init-project`). Both commands build a list of
file plans, settle what to do with each plan whose destination already
exists, and then carry the plans out. An `update` first copies the old
content of its destination to a backup; always-updated files and `install`
plans are copied without a backup.
This project models that installing core:

- **Plans** (`plans.dfy`): `FilePlan` as a class whose `action` is filled in
  place; a plan is a conflict when its destination exists and it is not an
  always-updated file.
- **Conflict resolution** (`resolve.dfy`): `resolve_conflicts` as a method
  proved against the function `Resolve`. The menu answer is a parameter
  (`Option<Choice>`, None for a cancelled menu) and the per-file confirms
  are a sequence of booleans.
- **Execution** (`execute.dfy`): `execute_plans` as a loop over the plans,
  proved against the function `ExecAll`. The filesystem is a map from path
  to content (`files.dfy`), `shutil.copy2` is a copy between two keys, and
  an exception ends the run with the writes made so far left in place.
- **init-project** (`commands.dfy`): resolve then execute, the literal
  placeholder rendering of `CLAUDE.md` and `.mcp.json`, and the append-only
  `.gitignore` edit.
- **Text** (`text.dfy`): Python's `in`, `str.replace`, `str.split` and
  `str.join`. Split and join are the reference definition against which
  replacement is proved.

The backup directory name (a timestamp in the source) is a parameter.

Three points of the code that shape the model:
- Backups are copies into `backup_base/<file name>`.
- There is no per-entry failure isolation: the first exception ends the run.
- The counters are installed/updated/skipped. Always-updated files count as
  updated.

## Model

| member | source | states |
|---|---|---|
| Plans.FilePlan.constructor | claude-init.py:57-67 | a new plan is pending, and it is a conflict exactly when its destination exists and it is not always updated |
| Plans.AlwaysUpdateNeverConflicts | claude-init.py:62-67 | an always-updated plan is never a conflict, whatever is on disk |
| Plans.IsConflict | claude-init.py:66-67 | definition: a plan conflicts when its destination exists and it is not always updated |
| Files.Child | claude-init.py:76 | `base / name` ends in `name` under `base`; an empty name leaves `base` as it is, as pathlib does |
| Files.CopyFile | claude-init.py:77-78 | `shutil.copy2` succeeds exactly when the source exists and differs from the destination; then the destination gets the source's content and no other file changes; on failure nothing changes |
| Files.BackupBeforeOverwrite | claude-init.py:73-78 | if the destination's content changed, its old content is at `backup_base/<dest name>`; after a successful call, when the source is not the backup path, the destination holds the source's content; only the destination and the backup path are touched |
| Files.BackupPath | claude-init.py:76 | definition: the backup of `dest` is `backup_base / dest.name` |
| Files.BackupAndCopyFile | claude-init.py:73-78 | definition: `copy2(dest, backup)`, then, if that did not raise, `copy2(src, dest)` |
| Files.FileSystem.Copy | claude-init.py:77-78 | the live copy leaves the filesystem and the error as `CopyFile` says |
| Files.FileSystem.Append | claude-init.py:471-474 | writing in append mode adds the text at the end of the file and creates a missing file |
| Files.BackupAndCopy | claude-init.py:73-78 | copies the destination to its backup path, then the source over the destination, with the outcome `BackupAndCopyFile` gives |
| Resolution.Decide | claude-init.py:132-153 | the action given to a plan is never pending, and a plan that already has an action keeps it |
| Resolution.AnswerAt | claude-init.py:149-153 | definition: the k-th confirm, read as no when it was not supplied, as a cancelled `ask()` returning None is |
| Resolution.ResolveSettlesEveryPlan | claude-init.py:81-153 | unless the program exits, no plan is left pending, every non-conflicting pending plan gets `install` under every policy, and settled plans keep their action |
| Resolution.ResolveExitsOnlyOnQuit | claude-init.py:83-130 | the program exits exactly when some plan conflicts, there is no `--force`, and the menu answer is Quit or cancelled |
| Resolution.ForceUpdatesConflicts | claude-init.py:92-100 | `--force` never exits, updates every pending conflict and skips nothing new; with a conflict, "Overwrite all" gives the same actions |
| Resolution.SkipAllSkipsConflicts | claude-init.py:137-140 | "Skip all existing" skips every pending conflict |
| Resolution.PerFileFollowsAnswers | claude-init.py:142-153 | "Decide per file" updates a pending conflict exactly when its confirm is yes, and skips it otherwise, including a cancelled confirm |
| Resolution.PromptsGetDistinctAnswers | claude-init.py:143-153 | confirms are used in plan order: a later prompted plan reads a later answer |
| Resolution.ModesAgreeWithoutConflicts | claude-init.py:83-90 | with no conflict, the menu is skipped and every policy gives the same actions |
| Resolution.Choose | claude-init.py:132-153 | one plan's new action is `Decide` with the next unused confirm, and a confirm is used exactly when the per-file policy prompts for this plan |
| Resolution.SettleAllAt | claude-init.py:143-153 | the i-th settled action is `Decide` with the confirm numbered by the prompts before it, and a prompted plan uses up one more confirm |
| Resolution.SettleOne | claude-init.py:132-153 | one plan's action is replaced in place by the one `Decide` gives for its old action and conflict flag |
| Resolution.Settle | claude-init.py:132-153 | one settling loop leaves each plan's action as `SettleAll` of the old plans says |
| Resolution.SettleAll | claude-init.py:86-153 | definition: each plan's action after a settling loop in the given mode, the per-file prompt of plan i reading the confirm numbered by the prompts before it |
| Resolution.ResolveConflicts | claude-init.py:81-153 | exits exactly when `Resolve` does, and then changes no action; otherwise every plan's new action is the one `Resolve` gives |
| Resolution.Resolve | claude-init.py:81-153 | definition: exit (None) on a conflict without `--force` and with Quit or a cancelled menu; otherwise the settled actions for the mode that `--force` or the menu answer selects |
| Execution.TallyCountsBranches | claude-init.py:160-189 | a completed run's counters are the numbers of plans that take the install, update and skip branches |
| Execution.BranchesPartitionSteps | claude-init.py:162-187 | every plan takes exactly one branch of the `if` chain |
| Execution.NoUncountedWhenSettled | claude-init.py:162-187 | only a pending plan that is not always updated goes uncounted |
| Execution.CountersConserved | claude-init.py:160-189 | when every plan is resolved or always updated, installed + updated + skipped equals the number of plans |
| Execution.AlwaysUpdateCopies | claude-init.py:163-168 | an always-updated plan is copied without a backup and counted as updated |
| Execution.SkipTouchesNothing | claude-init.py:183-187 | a skipped plan writes nothing and is counted as skipped |
| Execution.StepFrame | claude-init.py:162-187 | one plan writes only its destination and, for an update, its backup path |
| Execution.ExecAllFrame | claude-init.py:160-189 | a run, completed or aborted, changes no path other than destinations and the backup paths of updates |
| Execution.BackupsCollideByName | claude-init.py:73-78 | two updated plans whose destinations share a file name share a backup path, and after both it holds the second file's old content |
| Execution.ExecAllStopsAtFailure | claude-init.py:162-189 | once a plan raises, the run ends there with the files as they were left |
| Execution.ExecAllSnoc | claude-init.py:160-189 | a run over one more plan is the shorter run followed by that plan's step, unless the shorter run already raised |
| Execution.CountPlan | claude-init.py:163-187 | one iteration bumps exactly the counter `CounterOf` names for the plan, and none for a pending plan that is not always updated |
| Execution.ExecuteOne | claude-init.py:163-187 | one iteration's writes and exception are those of `ExecStep` on that plan |
| Execution.ExecutePlans | claude-init.py:156-189 | the loop ends with the counters and files `ExecAll` gives, or with the first exception and the files as they were when it was raised |
| Execution.CounterOf | claude-init.py:163-187 | definition: the counter each branch of the `if` chain bumps, none for a pending plan that is not always updated |
| Execution.Bump | claude-init.py:163-187 | definition: the `+= 1` on the counter a branch names, and no change for an uncounted plan |
| Execution.ExecStep | claude-init.py:163-187 | definition: the writes of one plan: a plain copy when always updated or installed, a backup and copy when updated, nothing when skipped |
| Execution.ExecAll | claude-init.py:156-189 | definition: the steps in order, counting each plan's branch, ending at the first exception with the files as they were left |
| Text.SplitJoinRoundTrip | claude-init.py:365 | splitting on a separator and joining with it gives back the text |
| Text.ReplaceIsJoinOfSplit | claude-init.py:365 | `s.replace(p, v)` equals `v.join(s.split(p))` |
| Text.SplitPiecesAreFree | claude-init.py:365 | no piece of a split contains the separator |
| Text.ReplaceAbsent | claude-init.py:365 | text without the pattern is left as it is |
| Text.Contains | claude-init.py:452 | definition: Python's `p in s`, the pattern as a contiguous block of the text |
| Text.Replace | claude-init.py:365 | definition: Python's `str.replace`, left to right over non-overlapping occurrences |
| Text.ReplaceScan | claude-init.py:365 | up to the first occurrence of the pattern the text is copied unchanged, and from there on the result is the replacement of the rest |
| Commands.ProjectTemplateRendering | claude-init.py:365 | the rendered `CLAUDE.md` is the template's placeholder-free pieces joined by the project name, where the template is the same pieces joined by `<project-name>` |
| Commands.RenderProjectClaude | claude-init.py:365 | definition: the template with every `<project-name>` replaced by the project name |
| Commands.RenderMcp | claude-init.py:420-423 | definition: `your-collection-name` replaced by the collection, then `project-search` by `<name>-search` in that result |
| Commands.McpText | claude-init.py:419-436 | definition: the rendered `.mcp.json` when `--collection` is non-empty, the template otherwise |
| Commands.ProjectTemplateWithoutPlaceholder | claude-init.py:365 | a template without `<project-name>` is installed unchanged |
| Commands.McpUnrenderedWithoutCollection | claude-init.py:419-436 | without a non-empty `--collection`, the `.mcp.json` template is installed as it is |
| Commands.McpReplacementsAreSequential | claude-init.py:420-423 | with `--collection project-search`, the second replacement also rewrites every name the first one inserted: a template without `project-search` renders as its collection placeholders replaced by `<name>-search` |
| Commands.ServerAfterCollection | claude-init.py:420-423 | in a template without `project-search`, replacing the collection placeholder by `project-search` and then `project-search` by `v` is replacing the placeholder by `v` |
| Commands.AppendBlockAddsEntry | claude-init.py:471-474 | after the append the entry is present and the old content is a prefix |
| Commands.HasEntry | claude-init.py:452 | definition: `.gitignore` exists and contains `.claude/settings.local.json` |
| Commands.AppendBlock | claude-init.py:470-474 | definition: the old content, a newline only after non-empty content, the comment line and the entry |
| Commands.EnsureEntry | claude-init.py:449-478 | definition: the content unchanged when it has the entry, `AppendBlock` of it otherwise |
| Commands.GitignoreEditIdempotent | claude-init.py:450-478 | the `.gitignore` edit keeps the old content as a prefix; the entry is present afterwards; a file that has it is left alone; an empty or missing file gets no leading newline; a second run changes nothing |
| Commands.AppendGitignoreEntry | claude-init.py:470-474 | the file becomes its old content, a newline only when that content is non-empty, then the comment line and the entry |
| Commands.InstallPlans | claude-init.py:461-467 | on Quit or a cancelled menu, no action is assigned and no file is written; otherwise the actions are `Resolve`'s, the files and counters are `ExecAll`'s, and a completed run counts every plan once |
| Commands.GitignoreAfterRun | claude-init.py:449-478 | after a completed run the append gives the outcome `AppendAfter` describes and the counters total one more than the plans when the entry was missing; when no plan writes `.gitignore`, the file ends as `EnsureEntry` of its old content, with the entry present |
| Commands.FinishGitignore | claude-init.py:470-478 | the append runs exactly when the entry was missing before the run; the file then gets `AppendBlock` of its content and the installed count goes up by one, and otherwise nothing changes |
| Commands.AppendAfter | claude-init.py:470-478 | definition: after a completed run without the entry, the block appended to `.gitignore` and one more installed file; an aborted run or a present entry is left as it is |
| Commands.InitProject | claude-init.py:449-478 | the entry check happens before any write; the outcome is `AppendAfter` of the `ExecAll` run, so the append follows only a completed run and counts as one more installed file; with no plan writing `.gitignore`, it ends as `EnsureEntry` of its old content, with the entry present |

## Left out

- Console output (`rich` panels, colours, the pre-scan report and the summary) is presentation only.
- The `questionary` prompts are inputs: the menu answer is `Option<Choice>` and the confirms are a sequence of booleans. A confirm that the sequence does not supply reads as cancelled. `ask()` then returns None, which the code treats as "no".
- `argparse`, `main`, choosing the project name (`--name` or the current directory's name) and `detect_source_dir` are command-line plumbing.
- Which plans each command builds (`find_global_claude_md`, the lists of agents and templates, `--no-mcp`) is not modelled. The plans are an input.
- Temporary files for rendered templates are not modelled, nor their removal in `finally`. Rendering is modelled as functions on text.
- `mkdir`, `chmod(0o755)` and the metadata that `copy2` preserves are not modelled. Directories and permissions are outside a map from path to content.
- `datetime.now()` is not modelled. The backup directory is a parameter.
- The PATH check and the missing-dependency exit are environment probing.
- File contents are text (`string`). Byte content and encodings are not distinguished.
- Copy errors other than a missing source and a source equal to the destination (permissions, a directory in the way) are not modelled. Neither are errors while appending to `.gitignore`.
- Resolution.ResolveConflicts: requires each plan in the list to be a distinct object. Both commands build every plan with a fresh constructor call. With aliasing, the second occurrence of a plan would see it already settled.
- Resolution.Settle: requires distinct plan objects, for the same reason.
- Commands.InstallPlans: requires distinct plan objects, because it calls `resolve_conflicts`.
- Commands.InitProject: requires distinct plan objects, for the same reason.
