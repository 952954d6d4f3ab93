/** The `run` command of src/commands/run.js: from its flags, the terraform
    actions of the run, the orientation of its schedule, the direction its
    dependencies are checked in and whether the user must approve it. */
module RunCommand {
  import opened Types
  import CycleTheory
  import TerraformCommand

  /** The command-line flags of `run`. */
  datatype Flags = Flags(apply: bool, destroy: bool, build: bool, autoApprove: bool, dryRun: bool)

  /** A terraform action a run performs on every component. */
  datatype Action = Prepare | Init | WorkspaceSelect | Build | Plan | Apply | Destroy

  /** One scheduled run: its actions, its orientation and whether the plan is
      a destroy plan. Every step covers the whole filtered configuration. */
  datatype Step = Step(actions: seq<Action>, direction: Direction, planDestroy: bool)

  /** The actions every run starts with. */
  const BaseActions: seq<Action> := [Prepare, Init, WorkspaceSelect]

  /** `_runLocal`: a destroy run wins over an apply run, which wins over the
      default run. */
  function RunLocal(f: Flags): (s: Step)
    ensures |s.actions| >= 3 && s.actions[..3] == BaseActions
    ensures s.direction == (if f.destroy then Reverse else Forward)
    ensures s.planDestroy <==> f.destroy
    ensures f.destroy ==> s.actions == BaseActions + [Plan, Destroy]
    ensures !f.destroy && f.apply ==>
              s.actions == BaseActions + (if f.build then [Build] else []) + [Plan, Apply]
    ensures !f.destroy && !f.apply ==>
              s.actions == BaseActions + (if f.build then [Build] else []) + [Plan]
  {
    var actions := BaseActions + (if !f.apply && !f.destroy then (if f.build then [Build] else []) + [Plan] else []);
    if f.destroy then Step(actions + [Plan, Destroy], Reverse, true)
    else if f.apply then Step(actions + (if f.build then [Build, Plan, Apply] else [Plan, Apply]), Forward, false)
    else Step(actions, Forward, false)
  }

  /** The five shapes of a local run, written out. */
  lemma RunLocalShapes(f: Flags)
    ensures f.destroy ==> RunLocal(f).actions == [Prepare, Init, WorkspaceSelect, Plan, Destroy]
    ensures !f.destroy && f.apply && f.build ==>
              RunLocal(f).actions == [Prepare, Init, WorkspaceSelect, Build, Plan, Apply]
    ensures !f.destroy && f.apply && !f.build ==>
              RunLocal(f).actions == [Prepare, Init, WorkspaceSelect, Plan, Apply]
    ensures !f.destroy && !f.apply && f.build ==>
              RunLocal(f).actions == [Prepare, Init, WorkspaceSelect, Build, Plan]
    ensures !f.destroy && !f.apply && !f.build ==>
              RunLocal(f).actions == [Prepare, Init, WorkspaceSelect, Plan]
  {
  }

  /** Every local run plans. */
  lemma RunLocalPlans(f: Flags)
    ensures Plan in RunLocal(f).actions
  {
    RunLocalShapes(f);
  }

  /** A local run applies exactly when apply is set without destroy. */
  lemma RunLocalAppliesIff(f: Flags)
    ensures Apply in RunLocal(f).actions <==> f.apply && !f.destroy
  {
    RunLocalShapes(f);
  }

  /** A local run destroys exactly when destroy is set. */
  lemma RunLocalDestroysIff(f: Flags)
    ensures Destroy in RunLocal(f).actions <==> f.destroy
  {
    RunLocalShapes(f);
  }

  /** A local run builds exactly when build is set without destroy. */
  lemma RunLocalBuildsIff(f: Flags)
    ensures Build in RunLocal(f).actions <==> f.build && !f.destroy
  {
    RunLocalShapes(f);
  }

  /** A destroy run ignores the build and apply flags. */
  lemma DestroyIgnoresBuildAndApply(f: Flags, g: Flags)
    requires f.destroy && g.destroy
    ensures RunLocal(f) == RunLocal(g)
  {
  }

  /** Why `_runCloud` refuses a run. */
  datatype CloudError = BuildUnavailable | DestroyUnavailable

  /** `_runCloud`: build and destroy are refused, build first; otherwise a
      plan, with an apply when apply is set, always FORWARD. */
  function RunCloud(f: Flags): (r: Result<Step, CloudError>)
    ensures r.Err? <==> f.build || f.destroy
    ensures r == Err(BuildUnavailable) <==> f.build
    ensures r.Ok? ==> r.value.direction == Forward && !r.value.planDestroy
    ensures r.Ok? ==> r.value.actions == BaseActions + (if f.apply then [Plan, Apply] else [Plan])
  {
    if f.build then Err(BuildUnavailable)
    else if f.destroy then Err(DestroyUnavailable)
    else Ok(Step(BaseActions + (if !f.apply then [Plan] else [Plan, Apply]), Forward, false))
  }

  /** Where the cloud run accepts the flags, it schedules exactly what the
      local run does. */
  lemma CloudAgreesWithLocal(f: Flags)
    ensures RunCloud(f).Ok? ==> RunCloud(f).value == RunLocal(f)
  {
    if RunCloud(f).Ok? {
      assert !f.build && !f.destroy;
    }
  }

  /** `_checkDependencies`: the switch on `apply + 2 * destroy`. */
  function CheckDirection(f: Flags): (d: Option<Direction>)
    ensures d.None? <==> !f.apply && !f.destroy
    ensures d == Some(Forward) <==> f.apply && !f.destroy
    ensures d == Some(Reverse) <==> !f.apply && f.destroy
    ensures d == Some(Bidirectional) <==> f.apply && f.destroy
  {
    var code := (if f.apply then 1 else 0) + 2 * (if f.destroy then 1 else 0);
    match code
    case 0 => None
    case 1 => Some(Forward)
    case 2 => Some(Reverse)
    case _ => Some(Bidirectional)
  }

  /** `_isApprovementRequired`: the user must approve exactly the runs that
      change infrastructure, those whose scheduled actions apply or destroy. */
  function IsApprovementRequired(f: Flags): (b: bool)
    ensures b <==> Apply in RunLocal(f).actions || Destroy in RunLocal(f).actions
  {
    RunLocalAppliesIff(f);
    RunLocalDestroysIff(f);
    f.apply || f.destroy
  }

  /** A run that changes infrastructure needs approval exactly when its
      dependencies are checked, and the check covers the orientation the run
      is scheduled in: the issues of that orientation are issues of the
      check. */
  lemma CheckCoversSchedule(f: Flags, config: Tree, full: TerraformCommand.Config, md5: Path -> Hash)
    ensures IsApprovementRequired(f) <==> CheckDirection(f).Some?
    ensures CheckDirection(f).Some? ==>
              TerraformCommand.IssuesFor(config, full, md5, RunLocal(f).direction)
                <= TerraformCommand.IssuesFor(config, full, md5, CheckDirection(f).value)
  {
  }

  /** What `run` resolves with. */
  datatype Outcome = DryRun | Scheduled(steps: seq<Step>)

  /** Why `run` rejects: the dependency check failed, or the user did not
      confirm. */
  datatype RunError = CheckFailed(error: TerraformCommand.CommandError) | Aborted

  /** The dependency check of `run` passes: no check is needed, or there is
      no issue and no cycle. */
  ghost predicate CheckPasses(config: Tree, full: TerraformCommand.Config, md5: Path -> Hash, f: Flags)
  {
    CheckDirection(f).None? ||
    (TerraformCommand.IssuesFor(config, full, md5, CheckDirection(f).value) == {} && !CycleTheory.HasCycle(config))
  }

  /** `run()` on the filtered configuration: check the dependencies, stop at
      a dry run, ask for approval when it is required (`answer` is the
      user's reply, unused under auto-approve) and schedule the local run. */
  method Run(config: Tree, full: TerraformCommand.Config, md5: Path -> Hash, f: Flags, answer: bool)
    returns (r: Result<Outcome, RunError>)
    ensures r.Err? && r.error.CheckFailed? <==> !CheckPasses(config, full, md5, f)
    ensures CheckPasses(config, full, md5, f) && f.dryRun ==> r == Ok(DryRun)
    ensures CheckPasses(config, full, md5, f) && !f.dryRun ==>
              r == if !IsApprovementRequired(f) || f.autoApprove || answer
                   then Ok(Scheduled([RunLocal(f)])) else Err(Aborted)
    ensures CheckDirection(f).Some? &&
            TerraformCommand.IssuesFor(config, full, md5, CheckDirection(f).value) != {} ==>
              r == Err(CheckFailed(TerraformCommand.Issues(TerraformCommand.IssuesFor(config, full, md5, CheckDirection(f).value))))
    ensures CheckDirection(f).Some? &&
            TerraformCommand.IssuesFor(config, full, md5, CheckDirection(f).value) == {} &&
            CycleTheory.HasCycle(config) ==>
              && r.Err? && r.error.CheckFailed? && r.error.error.DependencyCycle?
              && exists c :: CycleTheory.IsCycle(config, c) && (forall i :: 0 <= i < |c| ==> c[i] in config)
                             && r.error.error.names == CycleTheory.NamesOf(config, c)
  {
    var direction := CheckDirection(f);
    if direction.Some? {
      var checked := TerraformCommand.CheckDependencies(config, full, md5, direction.value);
      if checked.Err? {
        return Err(CheckFailed(checked.error));
      }
    }
    if f.dryRun {
      return Ok(DryRun);
    }
    var confirmed := if IsApprovementRequired(f) then f.autoApprove || answer else true;
    if !confirmed {
      return Err(Aborted);
    }
    return Ok(Scheduled([RunLocal(f)]));
  }
}
