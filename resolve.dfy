/**
 * `resolve_conflicts` (claude-init.py:81-153): gives every pending plan an
 * action, from its conflict flag, `--force` and the user's answers.
 */
module Resolution {
  import opened Wrappers
  import opened Plans

  /** The entries of the "What would you like to do?" menu. */
  datatype Choice = OverwriteAll | SkipAll | DecidePerFile | Quit

  /** How conflicting plans are settled once the menu has been answered. */
  datatype Mode = Overwrite | SkipExisting | PerFile

  /**
   * The answer to the i-th "Overwrite?" confirm. A confirm the sequence does
   * not supply reads as a cancelled prompt: `ask()` returns None, which the
   * source treats as "no".
   */
  function AnswerAt(answers: seq<bool>, k: nat): bool
  {
    k < |answers| && answers[k]
  }

  /** The action a plan ends up with; `answer` is only consulted per file. */
  function Decide(v: PlanView, mode: Mode, answer: bool): (a: Action)
    ensures a != Pending
    ensures v.action != Pending ==> a == v.action
  {
    if v.action != Pending then v.action
    else if !v.conflict then Install
    else match mode
      case Overwrite => Update
      case SkipExisting => Skip
      case PerFile => if answer then Update else Skip
  }

  /** Whether a plan gets an "Overwrite?" confirm in per-file mode. */
  predicate Prompted(v: PlanView)
  {
    v.action == Pending && v.conflict
  }

  /** The number of confirms asked for these plans. */
  function Asked(views: seq<PlanView>): nat
  {
    if views == [] then 0
    else Asked(views[..|views| - 1]) + (if Prompted(views[|views| - 1]) then 1 else 0)
  }

  /** The actions after the settling loop for `mode` has run over all plans. */
  function SettleAll(views: seq<PlanView>, mode: Mode, answers: seq<bool>): (acts: seq<Action>)
    ensures |acts| == |views|
  {
    seq(|views|, i requires 0 <= i < |views| =>
      Decide(views[i], mode, AnswerAt(answers, Asked(views[..i]))))
  }

  predicate AnyConflict(views: seq<PlanView>)
  {
    exists i :: 0 <= i < |views| && views[i].conflict
  }

  /**
   * The whole of `resolve_conflicts`: None when the user quits or cancels
   * the menu (the source exits), otherwise the new action of every plan.
   */
  function Resolve(views: seq<PlanView>, force: bool, choice: Option<Choice>, answers: seq<bool>): Option<seq<Action>>
  {
    if !AnyConflict(views) || force then Some(SettleAll(views, Overwrite, answers))
    else match choice
      case None => None
      case Some(c) =>
        match c
        case Quit => None
        case OverwriteAll => Some(SettleAll(views, Overwrite, answers))
        case SkipAll => Some(SettleAll(views, SkipExisting, answers))
        case DecidePerFile => Some(SettleAll(views, PerFile, answers))
  }

  /**
   * Unless the user quits, no plan is left pending, and a plan that does not
   * conflict is installed under every policy.
   */
  lemma ResolveSettlesEveryPlan(views: seq<PlanView>, force: bool, choice: Option<Choice>, answers: seq<bool>)
    requires Resolve(views, force, choice, answers).Some?
    ensures var acts := Resolve(views, force, choice, answers).value;
            && |acts| == |views|
            && (forall i :: 0 <= i < |views| ==> acts[i] != Pending)
            && (forall i :: 0 <= i < |views| && views[i].action == Pending && !views[i].conflict ==>
                  acts[i] == Install)
            && (forall i :: 0 <= i < |views| && views[i].action != Pending ==> acts[i] == views[i].action)
  {
  }

  /** The program exits exactly when there is a conflict, no --force, and Quit or a cancelled menu. */
  lemma ResolveExitsOnlyOnQuit(views: seq<PlanView>, force: bool, choice: Option<Choice>, answers: seq<bool>)
    ensures Resolve(views, force, choice, answers).None? <==>
            (AnyConflict(views) && !force && (choice == None || choice == Some(Quit)))
  {
  }

  /** --force and "Overwrite all" update every pending conflict; --force never skips one. */
  lemma ForceUpdatesConflicts(views: seq<PlanView>, choice: Option<Choice>, answers: seq<bool>)
    ensures Resolve(views, true, choice, answers).Some?
    ensures var acts := Resolve(views, true, choice, answers).value;
            && (forall i :: 0 <= i < |views| && Prompted(views[i]) ==> acts[i] == Update)
            && (forall i :: 0 <= i < |views| && acts[i] == Skip ==> views[i].action == Skip)
    ensures AnyConflict(views) ==>
            Resolve(views, false, Some(OverwriteAll), answers) == Resolve(views, true, choice, answers)
  {
  }

  /** "Skip all existing" skips every pending conflict. */
  lemma SkipAllSkipsConflicts(views: seq<PlanView>, answers: seq<bool>)
    requires AnyConflict(views)
    ensures var acts := Resolve(views, false, Some(SkipAll), answers).value;
            forall i :: 0 <= i < |views| && Prompted(views[i]) ==> acts[i] == Skip
  {
  }

  /**
   * "Decide per file" updates a pending conflict exactly when the user
   * confirms it; the confirms are asked in plan order, one per such plan.
   */
  lemma PerFileFollowsAnswers(views: seq<PlanView>, answers: seq<bool>, i: nat)
    requires AnyConflict(views) && i < |views| && Prompted(views[i])
    ensures var acts := Resolve(views, false, Some(DecidePerFile), answers).value;
            var k := Asked(views[..i]);
            && (acts[i] == Update <==> (k < |answers| && answers[k]))
            && (acts[i] == Skip <==> !(k < |answers| && answers[k]))
  {
  }

  /** Each prompted plan consumes its own answer: a later plan reads a later confirm. */
  lemma {:induction false} PromptsGetDistinctAnswers(views: seq<PlanView>, i: nat, j: nat)
    requires i < j <= |views| && Prompted(views[i])
    ensures Asked(views[..i]) < Asked(views[..j])
    decreases j
  {
    assert views[..j][..j - 1] == views[..j - 1];
    if j - 1 == i {
      assert views[..j][j - 1] == views[i];
    } else {
      PromptsGetDistinctAnswers(views, i, j - 1);
    }
  }

  /** Without conflicts the menu is not shown and every policy gives the same actions. */
  lemma ModesAgreeWithoutConflicts(views: seq<PlanView>, mode: Mode, answers: seq<bool>, other: seq<bool>)
    requires !AnyConflict(views)
    ensures SettleAll(views, mode, answers) == SettleAll(views, Overwrite, other)
  {
  }

  /**
   * The body of the settling loops for one plan: its new action, and the
   * number of confirms used once it is settled.
   */
  method Choose(v: PlanView, mode: Mode, answers: seq<bool>, k: nat) returns (next: Action, k': nat)
    ensures next == Decide(v, mode, AnswerAt(answers, k))
    ensures k' == if mode == PerFile && Prompted(v) then k + 1 else k
  {
    next, k' := v.action, k;
    if v.action == Pending {
      if !v.conflict {
        next := Install;
      } else {
        match mode {
          case Overwrite =>
            next := Update;
          case SkipExisting =>
            next := Skip;
          case PerFile =>
            var answer := AnswerAt(answers, k);
            k' := k + 1;
            next := if answer then Update else Skip;
        }
      }
    }
  }

  /**
   * The i-th settled action, given the number of confirms used before it
   * (only counted per file, the one policy that reads them).
   */
  lemma SettleAllAt(views: seq<PlanView>, mode: Mode, answers: seq<bool>, i: nat, k: nat)
    requires i < |views|
    requires mode == PerFile ==> k == Asked(views[..i])
    ensures SettleAll(views, mode, answers)[i] == Decide(views[i], mode, AnswerAt(answers, k))
    ensures mode == PerFile ==>
              Asked(views[..i + 1]) == k + (if Prompted(views[i]) then 1 else 0)
  {
    assert views[..i + 1][..i] == views[..i];
  }

  /** Settles one plan in place; `k` is the number of confirms used so far. */
  method SettleOne(p: FilePlan, mode: Mode, answers: seq<bool>, k: nat) returns (k': nat)
    modifies p
    ensures p.action == Decide(PlanView(p.conflict, old(p.action)), mode, AnswerAt(answers, k))
    ensures k' == if mode == PerFile && Prompted(PlanView(p.conflict, old(p.action))) then k + 1 else k
  {
    var next;
    next, k' := Choose(PlanView(p.conflict, p.action), mode, answers, k);
    p.action := next;
  }

  /** One settling loop over the plans (the loops at claude-init.py:87-89, 97-99, 133-140, 143-153). */
  method Settle(plans: seq<FilePlan>, mode: Mode, answers: seq<bool>)
    requires Distinct(plans)
    modifies plans
    ensures Actions(plans) == SettleAll(old(Views(plans)), mode, answers)
  {
    ghost var views := Views(plans);
    ghost var settled := SettleAll(views, mode, answers);
    var k := 0;
    for i := 0 to |plans|
      invariant mode == PerFile ==> k == Asked(views[..i])
      invariant forall j :: 0 <= j < i ==> plans[j].action == settled[j]
      invariant forall j :: i <= j < |plans| ==> plans[j].action == views[j].action
    {
      SettleAllAt(views, mode, answers, i, k);
      k := SettleOne(plans[i], mode, answers, k);
    }
    ActionsAre(plans, settled);
  }

  /** `resolve_conflicts`; `exited` is the `sys.exit(0)` on Quit or a cancelled menu. */
  method ResolveConflicts(plans: seq<FilePlan>, force: bool, choice: Option<Choice>, answers: seq<bool>)
    returns (exited: bool)
    requires Distinct(plans)
    modifies plans
    ensures var r := Resolve(old(Views(plans)), force, choice, answers);
            && (exited <==> r.None?)
            && (exited ==> Actions(plans) == old(Actions(plans)))
            && (!exited ==> Actions(plans) == r.value)
  {
    ghost var views := Views(plans);
    var hasConflict := false;
    for i := 0 to |plans|
      invariant hasConflict <==> exists j :: 0 <= j < i && plans[j].conflict
    {
      if plans[i].conflict {
        hasConflict := true;
      }
    }
    assert hasConflict <==> AnyConflict(views);
    if !hasConflict || force {
      Settle(plans, Overwrite, answers);
      return false;
    }
    if choice.None? || choice.value == Quit {
      return true;
    }
    match choice.value {
      case OverwriteAll =>
        Settle(plans, Overwrite, answers);
      case SkipAll =>
        Settle(plans, SkipExisting, answers);
      case DecidePerFile =>
        Settle(plans, PerFile, answers);
    }
    exited := false;
  }
}
