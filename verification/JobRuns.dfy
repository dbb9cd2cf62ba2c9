/**
 * What a run of `Jobs` amounts to for each job, said of the steps alone: the way its code went,
 * and what its record shows.
 */
module JobRuns {
  import opened Wrappers
  import opened Jobs

  // ----- the way of one job -----

  /** The steps of one job, in order. */
  function TraceOf(steps: seq<Step>, job: nat): seq<Step> {
    if steps == [] then []
    else
      var last := steps[|steps| - 1];
      TraceOf(steps[..|steps| - 1], job) + if Actor(last) == Some(job) then [last] else []
  }

  /** A status could not be written: running at the start, or the outcome at the end. */
  ghost predicate GaveUp(trace: seq<Step>, job: nat) {
    || trace == [CreateRecord(job, true), MarkRunning(job, false)]
    || exists success ::
         trace == [CreateRecord(job, true), MarkRunning(job, true), Work(job, success), Report(job, false)]
  }

  /** All has been said about the job. */
  ghost predicate Said(trace: seq<Step>, job: nat) {
    || (exists before, marked :: GaveUp(before, job) && trace == before + [MarkFailed(job, marked)])
    || (exists success ::
          trace == [CreateRecord(job, true), MarkRunning(job, true), Work(job, success), Report(job, true)])
  }

  /** The steps that lead a job into each phase. */
  ghost predicate LeadsTo(trace: seq<Step>, job: nat, phase: Phase) {
    match phase
    case Registered => trace == []
    case Rejected => trace == [CreateRecord(job, false)]
    case Dropped(true) => trace == [HangUp(job)]
    case Dropped(false) =>
      || trace == [CreateRecord(job, false), HangUp(job)]
      || exists written :: trace == [HangUp(job), LateRecord(job, written)]
    case Spawned => trace == [CreateRecord(job, true)]
    case Working => trace == [CreateRecord(job, true), MarkRunning(job, true)]
    case Reporting(success) =>
      trace == [CreateRecord(job, true), MarkRunning(job, true), Work(job, success)]
    case GivingUp => GaveUp(trace, job)
    case Finishing => Said(trace, job)
    case Finished =>
      || trace == [CreateRecord(job, false), Unregister(job)]
      || exists before :: Said(before, job) && trace == before + [Unregister(job)]
  }

  lemma LedOn(s: State, step: Step, job: nat, trace: seq<Step>)
    requires Enabled(s, step) && Actor(step) == Some(job) && job < |s.jobs|
    requires LeadsTo(trace, job, s.jobs[job].phase)
    ensures var t := Apply(s, step); job < |t.jobs| && LeadsTo(trace + [step], job, t.jobs[job].phase)
  {
    match step {
      case CreateRecord(_, ok) => assert trace + [step] == [CreateRecord(job, ok)];
      case HangUp(_) => LedToHangUp(trace, job);
      case LateRecord(_, ok) => assert trace + [step] == [HangUp(job), LateRecord(job, ok)];
      case MarkRunning(_, ok) => assert trace + [step] == [CreateRecord(job, true), MarkRunning(job, ok)];
      case Work(_, success) =>
        assert trace + [step] == [CreateRecord(job, true), MarkRunning(job, true), Work(job, success)];
      case Report(_, ok) => LedToReport(trace, job, s.jobs[job].phase.success, ok);
      case MarkFailed(_, marked) =>
        assert GaveUp(trace, job) && trace + [step] == trace + [MarkFailed(job, marked)];
      case Unregister(_) => LedToEnd(trace, job, s.jobs[job].phase);
    }
  }

  lemma LedToHangUp(trace: seq<Step>, job: nat)
    requires trace == [] || trace == [CreateRecord(job, false)]
    ensures trace + [HangUp(job)] == if trace == [] then [HangUp(job)] else [CreateRecord(job, false), HangUp(job)]
  {
  }

  lemma LedToEnd(trace: seq<Step>, job: nat, phase: Phase)
    requires phase == Rejected || phase == Finishing
    requires LeadsTo(trace, job, phase)
    ensures LeadsTo(trace + [Unregister(job)], job, Finished)
  {
    if phase == Finishing {
      assert Said(trace, job);
    } else {
      assert trace + [Unregister(job)] == [CreateRecord(job, false), Unregister(job)];
    }
  }

  lemma LedToReport(trace: seq<Step>, job: nat, success: bool, ok: bool)
    requires trace == [CreateRecord(job, true), MarkRunning(job, true), Work(job, success)]
    ensures trace + [Report(job, ok)] ==
      [CreateRecord(job, true), MarkRunning(job, true), Work(job, success), Report(job, ok)]
    ensures if ok then Said(trace + [Report(job, ok)], job) else GaveUp(trace + [Report(job, ok)], job)
  {
  }

  /** In every interleaving the code of each job goes one of the ways its phase stands for. */
  lemma {:induction false} TraceFitsPhase(states: seq<State>, steps: seq<Step>, i: nat, job: nat)
    requires RunOf(states, steps) && i < |states|
    ensures if job < |states[i].jobs| then LeadsTo(TraceOf(steps[..i], job), job, states[i].jobs[job].phase)
            else TraceOf(steps[..i], job) == []
  {
    hide Apply, Enabled, LeadsTo, TraceOf, Actor;
    NoTrace(steps, job);
    if i > 0 {
      TraceGrows(steps, i, job);
      TraceFitsPhase(states, steps, i - 1, job);
      var s, step := states[i - 1], steps[i - 1];
      if job < |s.jobs| {
        if Actor(step) == Some(job) {
          LedOn(s, step, job, TraceOf(steps[..i - 1], job));
        } else {
          StepLowersRank(s, step, job);
        }
      } else {
        NewcomersHaveNotActed(s, step, job);
        Newcomer(s, step, job);
      }
    }
  }

  lemma NoTrace(steps: seq<Step>, job: nat)
    ensures TraceOf(steps[..0], job) == []
  {
  }

  lemma TraceGrows(steps: seq<Step>, i: nat, job: nat)
    requires 0 < i <= |steps|
    ensures TraceOf(steps[..i], job) ==
      if Actor(steps[i - 1]) == Some(job) then TraceOf(steps[..i - 1], job) + [steps[i - 1]]
      else TraceOf(steps[..i - 1], job)
  {
    assert steps[..i][..i - 1] == steps[..i - 1];
    assert TraceOf(steps[..i - 1], job) + [] == TraceOf(steps[..i - 1], job);
  }

  lemma Newcomer(s: State, step: Step, job: nat)
    requires Enabled(s, step) && job >= |s.jobs|
    ensures var t := Apply(s, step); job < |t.jobs| ==> LeadsTo([], job, t.jobs[job].phase)
  {
  }

  // ----- what its record shows -----

  /** How the job's work ended, if it has. */
  function WorkOf(steps: seq<Step>, job: nat): Option<bool> {
    if steps == [] then None
    else
      var last := steps[|steps| - 1];
      if last.Work? && last.job == job then Some(last.success) else WorkOf(steps[..|steps| - 1], job)
  }

  /** What the job wrote last: its outcome is that of its work. */
  function Written(steps: seq<Step>, job: nat): Option<Status> {
    if steps == [] then None
    else
      var front := steps[..|steps| - 1];
      match WrittenBy(steps[|steps| - 1], job, WorkOf(front, job))
      case Some(status) => Some(status)
      case None => Written(front, job)
  }

  function WrittenBy(step: Step, job: nat, work: Option<bool>): Option<Status> {
    if step == CreateRecord(job, true) || step == LateRecord(job, true) then Some(Queued)
    else if step == MarkRunning(job, true) then Some(Running)
    else if step == Report(job, true) then Some(if work == Some(true) then Succeeded else Failed)
    else if step == MarkFailed(job, true) then Some(Failed)
    else None
  }

  /** Whether the job, being in that phase, has a record of its own. */
  ghost predicate FitsPhase(phase: Phase, written: Option<Status>, work: Option<bool>) {
    match phase
    case Registered => written == None
    case Rejected => written == None
    case Dropped(true) => written == None
    case Dropped(false) => true
    case Reporting(success) => written.Some? && work == Some(success)
    case Finished => true
    case _ => written.Some?
  }

  /** Every job with a record of its own finds there what it wrote last, and no two share one. */
  ghost predicate Recorded(s: State, written: seq<Option<Status>>, work: seq<Option<bool>>) {
    && |written| == |work| == |s.jobs|
    && (forall j :: 0 <= j < |s.jobs| ==> FitsPhase(s.jobs[j].phase, written[j], work[j]))
    && (forall j :: 0 <= j < |s.jobs| && written[j].Some? ==> StatusOf(s, s.jobs[j].id) == written[j])
    && (forall j, k :: 0 <= j < k < |s.jobs| && written[j].Some? && written[k].Some? ==> s.jobs[j].id != s.jobs[k].id)
  }

  function AllWritten(steps: seq<Step>, n: nat): (written: seq<Option<Status>>)
    ensures |written| == n && forall j :: 0 <= j < n ==> written[j] == Written(steps, j)
  {
    seq(n, j requires 0 <= j < n => Written(steps, j))
  }

  function AllWork(steps: seq<Step>, n: nat): (work: seq<Option<bool>>)
    ensures |work| == n && forall j :: 0 <= j < n ==> work[j] == WorkOf(steps, j)
  {
    seq(n, j requires 0 <= j < n => WorkOf(steps, j))
  }

  lemma RegisterRecorded(s: State, id: JobId, written: seq<Option<Status>>, work: seq<Option<bool>>)
    requires Recorded(s, written, work)
    ensures Recorded(Apply(s, Register(id)), written + [None], work + [None])
  {
  }

  function WorkBy(step: Step, work: Option<bool>): Option<bool> {
    if step.Work? then Some(step.success) else work
  }

  function Kept<T>(news: Option<T>, before: Option<T>): Option<T> {
    if news.Some? then news else before
  }

  lemma StepRecorded(s: State, step: Step, job: nat, written: seq<Option<Status>>, work: seq<Option<bool>>)
    requires Recorded(s, written, work) && Enabled(s, step) && Actor(step) == Some(job)
    ensures job < |s.jobs|
    ensures Recorded(
      Apply(s, step), written[job := Kept(WrittenBy(step, job, work[job]), written[job])],
      work[job := WorkBy(step, work[job])])
  {
    StepWrites(s, step, job, written[job], work[job]);
    hide Apply, Enabled, WrittenBy, FitsPhase, StatusOf;
    var t := Apply(s, step);
    var written' := written[job := Kept(WrittenBy(step, job, work[job]), written[job])];
    forall j | 0 <= j < |t.jobs| && written'[j].Some?
      ensures StatusOf(t, t.jobs[j].id) == written'[j]
    {
      if j != job {
        OthersRecord(s, t, j, job, written, WrittenBy(step, job, work[job]));
      }
    }
    forall j, k | 0 <= j < k < |t.jobs| && written'[j].Some? && written'[k].Some?
      ensures t.jobs[j].id != t.jobs[k].id
    {
      if written[job].None? && (j == job || k == job) {
        FreshRecord(s, j, k, job, written);
      }
    }
  }

  /** What a step of a job does to its own phase and record. */
  lemma StepWrites(s: State, step: Step, job: nat, written: Option<Status>, work: Option<bool>)
    requires Enabled(s, step) && Actor(step) == Some(job) && job < |s.jobs|
    requires FitsPhase(s.jobs[job].phase, written, work)
    requires written.Some? ==> StatusOf(s, s.jobs[job].id) == written
    ensures
      var t, news := Apply(s, step), WrittenBy(step, job, work);
      && |t.jobs| == |s.jobs|
      && (forall j :: 0 <= j < |s.jobs| ==> t.jobs[j].id == s.jobs[j].id)
      && (forall j :: 0 <= j < |s.jobs| && j != job ==> t.jobs[j] == s.jobs[j])
      && FitsPhase(t.jobs[job].phase, Kept(news, written), WorkBy(step, work))
      && (Kept(news, written).Some? ==> StatusOf(t, s.jobs[job].id) == Kept(news, written))
      && (forall id :: id != s.jobs[job].id ==> StatusOf(t, id) == StatusOf(s, id))
      && (news.Some? && written.None? ==> StatusOf(s, s.jobs[job].id) == None)
      && (news.None? ==> forall id :: StatusOf(t, id) == StatusOf(s, id))
  {
  }

  lemma OthersRecord(s: State, t: State, j: nat, job: nat, written: seq<Option<Status>>, news: Option<Status>)
    requires |written| == |s.jobs| && j < |s.jobs| && job < |s.jobs| && j != job
    requires written[j].Some? && StatusOf(s, s.jobs[j].id) == written[j]
    requires written[job].Some? ==> s.jobs[j].id != s.jobs[job].id
    requires forall id :: id != s.jobs[job].id ==> StatusOf(t, id) == StatusOf(s, id)
    requires news.Some? && written[job].None? ==> StatusOf(s, s.jobs[job].id) == None
    requires news.None? ==> forall id :: StatusOf(t, id) == StatusOf(s, id)
    ensures StatusOf(t, s.jobs[j].id) == written[j]
  {
    hide StatusOf;
  }

  lemma FreshRecord(s: State, j: nat, k: nat, job: nat, written: seq<Option<Status>>)
    requires |written| == |s.jobs| && j < k < |s.jobs| && (j == job || k == job)
    requires forall i :: 0 <= i < |s.jobs| && written[i].Some? ==> StatusOf(s, s.jobs[i].id) == written[i]
    requires StatusOf(s, s.jobs[job].id) == None
    ensures written[j].Some? || written[k].Some? ==> s.jobs[j].id != s.jobs[k].id
  {
    hide StatusOf;
  }

  lemma {:induction false} RunRecords(states: seq<State>, steps: seq<Step>, i: nat)
    requires RunOf(states, steps) && i < |states|
    ensures Recorded(states[i], AllWritten(steps[..i], |states[i].jobs|), AllWork(steps[..i], |states[i].jobs|))
    ensures forall j: nat :: j >= |states[i].jobs| ==> Written(steps[..i], j) == None && WorkOf(steps[..i], j) == None
  {
    hide Apply, Enabled, Recorded, WrittenBy;
    if i == 0 {
      NothingRecorded();
      assert steps[..0] == [];
    } else {
      RunRecords(states, steps, i - 1);
      assert steps[..i][..i - 1] == steps[..i - 1];
      RunRecordsStep(states[i - 1], steps[..i - 1], steps[i - 1], steps[..i]);
    }
  }

  lemma NothingRecorded()
    ensures Recorded(Initial, AllWritten([], 0), AllWork([], 0))
  {
  }

  lemma RunRecordsStep(s: State, front: seq<Step>, step: Step, steps: seq<Step>)
    requires Enabled(s, step) && steps == front + [step]
    requires Recorded(s, AllWritten(front, |s.jobs|), AllWork(front, |s.jobs|))
    requires forall j: nat :: j >= |s.jobs| ==> Written(front, j) == None && WorkOf(front, j) == None
    ensures var n := |Apply(s, step).jobs|;
      && Recorded(Apply(s, step), AllWritten(steps, n), AllWork(steps, n))
      && forall j: nat :: j >= n ==> Written(steps, j) == None && WorkOf(steps, j) == None
  {
    var n := |s.jobs|;
    var written, work := AllWritten(front, n), AllWork(front, n);
    assert steps[..|steps| - 1] == front;
    OnlyActorWrites(step);
    hide Recorded, WrittenBy, Enabled, Apply;
    match Actor(step) {
      case None =>
        RegisterRecorded(s, step.id, written, work);
        JobsAfterRegister(s, step.id);
        assert written + [None] == AllWritten(steps, n + 1);
        assert work + [None] == AllWork(steps, n + 1);
      case Some(job) =>
        StepRecorded(s, step, job, written, work);
        JobsAfterStep(s, step, job);
        assert written[job := Kept(WrittenBy(step, job, work[job]), written[job])] == AllWritten(steps, n);
        assert work[job := WorkBy(step, work[job])] == AllWork(steps, n);
    }
  }

  lemma OnlyActorWrites(step: Step)
    ensures forall j: nat, work: Option<bool> :: Actor(step) != Some(j) ==> WrittenBy(step, j, work) == None
    ensures Actor(step) == None ==> step.Register?
    ensures step.Work? ==> Actor(step) == Some(step.job)
  {
  }

  lemma JobsAfterRegister(s: State, id: JobId)
    ensures |Apply(s, Register(id)).jobs| == |s.jobs| + 1
  {
  }

  lemma JobsAfterStep(s: State, step: Step, job: nat)
    requires Enabled(s, step) && Actor(step) == Some(job)
    ensures |Apply(s, step).jobs| == |s.jobs| && job < |s.jobs|
  {
  }

  /** In every interleaving, a job's record shows what the job wrote last, whatever the ids are. */
  lemma RecordShowsWritten(states: seq<State>, steps: seq<Step>, i: nat, job: nat)
    requires RunOf(states, steps) && i < |states| && Written(steps[..i], job).Some?
    ensures job < |states[i].jobs|
    ensures StatusOf(states[i], states[i].jobs[job].id) == Written(steps[..i], job)
  {
    RunRecords(states, steps, i);
    hide Written, StatusOf, FitsPhase;
    assert job < |states[i].jobs|;
    assert AllWritten(steps[..i], |states[i].jobs|)[job] == Written(steps[..i], job);
  }

  /** A job that wrote success had worked successfully before. */
  lemma {:induction false} SucceededWorked(steps: seq<Step>, i: nat, job: nat)
    requires i <= |steps| && Written(steps[..i], job) == Some(Succeeded)
    ensures exists k :: 0 <= k < i && steps[k] == Work(job, true)
  {
    var last := steps[..i];
    assert last[..i - 1] == steps[..i - 1] && last[i - 1] == steps[i - 1];
    if steps[i - 1] == Report(job, true) {
      WorkedAt(steps, i - 1, job, true);
    } else {
      SucceededWorked(steps, i - 1, job);
    }
  }

  lemma {:induction false} WorkedAt(steps: seq<Step>, i: nat, job: nat, success: bool)
    requires i <= |steps| && WorkOf(steps[..i], job) == Some(success)
    ensures exists k :: 0 <= k < i && steps[k] == Work(job, success)
  {
    var last := steps[..i];
    assert last[..i - 1] == steps[..i - 1] && last[i - 1] == steps[i - 1];
    if steps[i - 1] != Work(job, success) {
      WorkedAt(steps, i - 1, job, success);
    }
  }

  /**
   * A report that goes through shows how the work ended: success exactly if the job's work
   * succeeded.
   */
  lemma ReportShowsWork(states: seq<State>, steps: seq<Step>, i: nat, job: nat)
    requires RunOf(states, steps) && i < |steps| && steps[i] == Report(job, true)
    ensures job < |states[i + 1].jobs|
    ensures WorkOf(steps[..i], job).Some?
    ensures StatusOf(states[i + 1], states[i + 1].jobs[job].id) ==
      Some(if WorkOf(steps[..i], job) == Some(true) then Succeeded else Failed)
  {
    assert steps[..i + 1][..i] == steps[..i] && steps[..i + 1][i] == steps[i];
    RecordShowsWritten(states, steps, i + 1, job);
    RunRecords(states, steps, i);
    assert AllWork(steps[..i], |states[i].jobs|)[job] == WorkOf(steps[..i], job);
  }

  /** The steps that count for a job are those of its trace. */
  lemma {:induction false} StepsOfIsTrace(steps: seq<Step>, job: nat)
    ensures StepsOf(steps, job) == |TraceOf(steps, job)|
  {
    if steps != [] {
      StepsOfIsTrace(steps[..|steps| - 1], job);
    }
  }
}
