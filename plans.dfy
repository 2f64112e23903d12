/**
 * `FilePlan` (claude-init.py:57-67): one file to install, with the action
 * that conflict resolution fills in.
 */
module Plans {
  import opened Files

  /** The values the source keeps in `FilePlan.action` as strings. */
  datatype Action = Pending | Install | Update | Skip

  /**
   * A plan is a conflict exactly when its destination already exists and it
   * is not an always-updated file (claude-init.py:66-67).
   */
  predicate IsConflict(files: Files, dest: Path, alwaysUpdate: bool)
  {
    dest in files && !alwaysUpdate
  }

  /** An always-updated plan is never a conflict, whatever is on disk. */
  lemma AlwaysUpdateNeverConflicts(files: Files, dest: Path)
    ensures !IsConflict(files, dest, true)
  {
  }

  class FilePlan {
    const src: Path
    const dest: Path
    const caption: string  // `label` in the source, a Dafny keyword
    const alwaysUpdate: bool
    const conflict: bool
    var action: Action

    /** The dataclass constructor with `__post_init__` (claude-init.py:66-67). */
    constructor (src: Path, dest: Path, caption: string, alwaysUpdate: bool, fs: FileSystem)
      ensures this.src == src && this.dest == dest && this.caption == caption
      ensures this.alwaysUpdate == alwaysUpdate
      ensures conflict == IsConflict(fs.files, dest, alwaysUpdate)
      ensures action == Pending
    {
      this.src := src;
      this.dest := dest;
      this.caption := caption;
      this.alwaysUpdate := alwaysUpdate;
      this.conflict := dest in fs.files && !alwaysUpdate;
      this.action := Pending;
    }
  }

  /** What conflict resolution looks at in a plan. */
  datatype PlanView = PlanView(conflict: bool, action: Action)

  /** What execution looks at in a plan. */
  datatype Step = Step(src: Path, dest: Path, alwaysUpdate: bool, action: Action)

  function Views(plans: seq<FilePlan>): (vs: seq<PlanView>)
    reads plans
    ensures |vs| == |plans|
    ensures forall i :: 0 <= i < |plans| ==>
              vs[i] == PlanView(plans[i].conflict, plans[i].action)
  {
    seq(|plans|, i reads plans requires 0 <= i < |plans| =>
      PlanView(plans[i].conflict, plans[i].action))
  }

  function Actions(plans: seq<FilePlan>): (acts: seq<Action>)
    reads plans
    ensures |acts| == |plans|
    ensures forall i :: 0 <= i < |plans| ==> acts[i] == plans[i].action
  {
    seq(|plans|, i reads plans requires 0 <= i < |plans| => plans[i].action)
  }

  function Steps(plans: seq<FilePlan>): (steps: seq<Step>)
    reads plans
    ensures |steps| == |plans|
    ensures forall i :: 0 <= i < |plans| ==>
              steps[i] == Step(plans[i].src, plans[i].dest, plans[i].alwaysUpdate, plans[i].action)
  {
    seq(|plans|, i reads plans requires 0 <= i < |plans| =>
      Step(plans[i].src, plans[i].dest, plans[i].alwaysUpdate, plans[i].action))
  }

  /** The actions, read back from plans whose actions are known one by one. */
  lemma ActionsAre(plans: seq<FilePlan>, acts: seq<Action>)
    requires |acts| == |plans|
    requires forall j :: 0 <= j < |plans| ==> plans[j].action == acts[j]
    ensures Actions(plans) == acts
  {
  }

  /** Every plan in the list is its own object. */
  predicate Distinct(plans: seq<FilePlan>)
  {
    forall i, j :: 0 <= i < j < |plans| ==> plans[i] != plans[j]
  }
}
